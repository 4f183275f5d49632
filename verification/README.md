# Proofs for the unlimit toolkit

A Dafny model of the self-contained algorithms of the toolkit: its in-memory data structures, its two
shared-memory rings and their message format, and the arithmetic of its rate limiters and circuit breaker.
`dafny verify dfyconfig.toml` checks all of it. Each file stands for one source file or one protocol.

- `RedBlackTree.dfy`: the tree with parent pointers and a shared sentinel, as linked objects updated in place.
  Every node carries for the proof a position and the open interval of positions its subtree may use; the list
  `Order` holds the nodes by position. The fixup loops are cut into one method for each case, and the lines
  that hang a subtree under a parent, repeated in the source, are one method for each side. The members for
  the two sides are mirror images. Since `less` is any strict total order, keys may be of any type.
- `LockFreeQueue.dfy`: one atomic step for each load and compare-and-swap, any number of threads, any schedule.
- `SharedRing.dfy`: the many-writer, many-reader slot ring as steps, with claims that may have to be given back.
- `HFTRing.dfy`: the single-producer, single-consumer ring as steps, with its mask indexing.
- `MessageCodec.dfy`: the encoder with its moving offset, the decoder with its bounds, and the layout both obey.
- `Graph.dfy`: both depth-first cycle searches, and the undirected graph that keeps edges and child lists in step.
- `RoaringBitmap.dfy`: array and bitmap containers, their conversions, and the two-level index over them.
  A 64-bit word is the sequence of its bits; subtracting one is defined by its borrow and shown to subtract one.
- `Indexer.dfy`: the tree of 32-bit words that hands out the least free index, with its bit tricks on real words.
- `UnionFind.dfy`, `LFU.dfy`: disjoint sets by rank with path compression; the cache with frequency lists.
- `LeakyBucket.dfy`, `BatchLimiter.dfy`: the two rate limiters, one call or batch as one step of a key's state.
- `CircuitBreaker.dfy`: the breaker as the steps its lock lets through one at a time.
- `Common.dfy`: options, powers of two, sizes and sums that several of the others use.

Clocks, callers' requests, schedules and the choice of the next thread are parameters. A Go map that is ranged
over is a map whose keys are taken in any order. A panic or an error return is a value of its own where the
source handles the input, and a precondition where the source leaves it to the caller.

The calls and answers of the three concurrent structures are read off the schedule: a call is one made of an
idle thread, an answer what the thread returns as it becomes idle again. So the theorems on runs speak of what
callers asked and were told, and none of an answer that belongs to no call.

Five places where the code falls short of its comments or its purpose, with the code modelled as it is:

- The ring may answer "buffer is full" while it is empty, because another writer holds the slot
  (`SharedRings.FullThoughEmpty`). `SharedRings.FullMeans` gives the exact condition: a full ring always
  refuses, and a writer that still stands at the write index is refused exactly when the ring is full or
  some call holds the slot. `SharedRings.NothingReadyMeans` says the same of readers and the empty ring.
- `MaxRequests` does not limit the requests let through half-open: with `MaxRequests` of them under way and
  no result recorded, one more passes (`CircuitBreakers.HalfOpenUnlimited`). Every request made of a breaker
  that stays half-open passes, so no more than `MaxRequests` pass exactly when no more are made
  (`CircuitBreakers.HalfOpenLimit`).
- The decoder's length check admits data too short for any message, on which it panics
  (`MessageCodec.ShortDataPanics`). The encoder never produces such data, so this takes memory that
  something else has written.
- `LFU.Resize` promises to evict until the cache fits. Evictions stop when the list at `minFreq` is used up,
  and the loop then never ends. It ends exactly when the keys to go are no more than the keys in that list;
  in a full cache these are the keys accessed least often (`LFUs.LFU.Resize`; `LFUPolicy.ThreeKeys` gives a
  full cache of three keys that cannot shrink to one).

- The batch limiter drops parts of tokens: it refills whole tokens and then stores the current time. A key with
  an empty bucket earns nothing in a run, however long, exactly when no two batches are far enough apart to
  earn a whole token (`BatchLimiters.StarvesExactly`), so a key that asks every half second for one unit of
  the one it earns each second may never get any (`BatchLimiters.HalfSecondsStarve`).

Undirected cycle detection is proved for all graphs the interface can build, parallel edges included: two
parallel edges are a cycle of two nodes, and the search finds it.

## Model

| member | source | states |
|---|---|---|
| RedBlackTrees.RedBlackTree.constructor | algo/red_black_tree.go:32-39 | a new tree is empty and valid |
| RedBlackTrees.RedBlackTree.Insert | algo/red_black_tree.go:80-112 | keeps order, black root and sentinel, no red-red link, equal black heights and consistent parents; adds one node with the key and value, behind all nodes whose key is not larger, and moves no other |
| RedBlackTrees.RedBlackTree.Delete | algo/red_black_tree.go:191-228 | reports true exactly when the key is present; then takes exactly one node with that key out of the order, and keeps every invariant; no nil is followed and the fixup ends |
| RedBlackTrees.RedBlackTree.Search | algo/red_black_tree.go:155-168 | finds a node with the key exactly when there is one |
| RedBlackTrees.RedBlackTree.InOrderTraversal | algo/red_black_tree.go:287-299 | lists the keys of all nodes in order |
| RedBlackTrees.RedBlackTree.leftRotate | algo/red_black_tree.go:42-58 | exchanges the two nodes and their three subtrees, keeping every position and parent link |
| RedBlackTrees.RedBlackTree.rightRotate | algo/red_black_tree.go:61-77 | the mirror image of leftRotate |
| RedBlackTrees.RedBlackTree.insertFixup | algo/red_black_tree.go:115-152 | from a tree with at most one red-red link, at the new node, restores all colour rules |
| RedBlackTrees.RedBlackTree.deleteFixup | algo/red_black_tree.go:231-284 | from a tree that lacks one black node on one side, which may hang at the sentinel, restores all colour rules |
| RedBlackTrees.RedBlackTree.transplant | algo/red_black_tree.go:171-180 | hangs v where u hung and sets v's parent, also when v is the sentinel |
| RedBlackTrees.RedBlackTree.minimum | algo/red_black_tree.go:183-188 | from any node x0, the node without left child that comes first of all nodes below x0 |
| RedBlackTrees.RedBlackTree.HeightBound | algo/red_black_tree.go:115-152 | the height is at most twice the black height and one, and a subtree of black height b has at least 2^b - 1 nodes |
| RedBlackTrees.RedBlackTree.LogarithmicHeight | algo/red_black_tree.go:80-228 | 2^height is at most (n + 1)^2 in every valid tree, as the constructor makes and Insert and Delete keep |
| LockFreeQueues.StepKeeps | algo/queue.go:124-210 | every step of every thread keeps the invariant: head at or before tail, tail at most one behind the last node, and no nil followed |
| LockFreeQueues.ActionCounted | algo/queue.go:138-181 | count differs from the length exactly by pushes not yet counted and pops not yet counted |
| LockFreeQueues.EmptySeen | algo/queue.go:153-197 | head.next is nil only when the queue is empty at that read, and otherwise leads to its first item |
| LockFreeQueues.SequentialFifo | algo/queue.go:124-197 | the calls, ordered by the moments they take effect, answer as a FIFO queue would and leave its contents |
| LockFreeQueues.SequentialOrdered | algo/queue.go:124-197 | that order never puts a call before one that had returned when it began |
| LockFreeQueues.Linearizable | algo/queue.go:124-210 | after every schedule of any number of threads, some order of the calls that the schedule makes and that returned or took effect, each with an answer of its kind (a push its own item), its start and its end, explains every answer as a FIFO queue's and respects real time |
| LockFreeQueues.RunTallied | algo/queue.go:124-210 | in every run each thread answers the calls made of it, one after another, each with what that call may answer |
| LockFreeQueues.SizeMeans | algo/queue.go:199-203 | a size that is answered was, at some moment of the call, the length but for pushes and pops not yet counted |
| LockFreeQueues.LockFree | algo/queue.go:122-182 | under every schedule n threads make at most 9 * (2n + 1) steps for each call made |
| SharedRings.RunsAreSafe | messages/msg_shared_memory.go:295-428 | in every run readIndex, writeIndex and readIndex + slotCount are in this order, and what is delivered for an index is what was written for it |
| SharedRings.StepRefinesQueue | messages/msg_shared_memory.go:323-425 | winning the write index appends to the queue of unread messages, winning the read index takes its head, no other step changes it, and each index is handed out once with exactly its bytes; what the calls answer is said by WritesMean and ReadsMean |
| SharedRings.LostClaimsDisturbNothing | messages/msg_shared_memory.go:327-334 | a claim that loses the race for the index leaves slot, indices and messages as they were |
| SharedRings.NothingIsLost | messages/msg_shared_memory.go:361-428 | when all calls have returned, every index below readIndex was delivered with its message |
| SharedRings.FullMeans | messages/msg_shared_memory.go:316-321 | a write is refused at its flag check exactly when the slot is unread or some call holds it; a full ring is always refused; with the loaded index still the write index, it is refused exactly when the ring is full or some call holds the slot |
| SharedRings.FullThoughEmpty | messages/msg_shared_memory.go:17-18 | a run in which a write is refused as full although nothing has been written |
| SharedRings.NothingReadyMeans | messages/msg_shared_memory.go:378-385 | a read is refused at its flag check exactly when the slot holds nothing unread or some call holds it; an empty ring is always refused; with the loaded index still the read index, it is refused exactly when the ring is empty or some call holds the slot |
| SharedRings.RunsAreCounted | messages/msg_shared_memory.go:237-243 | in every run messageCount is writeIndex - readIndex less the writes and plus the reads that have won an index and not counted it yet, modulo 2^64; with no call under way it is the number of unread messages |
| SharedRings.WritesMean | messages/msg_shared_memory.go:295-357 | in every run a write that has returned answers an index exactly when it won this index, which holds its message; too large exactly when the message is; and otherwise full, having won none |
| SharedRings.RunWriter | messages/msg_shared_memory.go:333-354 | in every run each index below writeIndex was won by one write, of the message it holds, which has answered this index or is about to |
| SharedRings.ReadsMean | messages/msg_shared_memory.go:361-428 | in every run a read that has returned answers the message of an index exactly when it won this index, and otherwise nothing ready |
| SharedRings.FullAnswers | messages/msg_shared_memory.go:316-321 | a write that answers full was refused at a moment of its own, by an unread or held slot; at the write index, by a full ring or a held slot |
| SharedRings.NothingReadyAnswers | messages/msg_shared_memory.go:378-385 | a read that answers nothing ready was refused at a moment of its own, by a slot without unread message or held; at the read index, by an empty ring or a held slot |
| SharedRings.LockFree | messages/msg_shared_memory.go:308-428 | under every schedule m threads make at most 4 * (2m + 1) * (m + 1) steps for each call made, retries included |
| HFTRings.RunsAreSafe | messages/msg_hft_shared_memory.go:246-363 | in every run the k-th message claimed is the k-th written, with sequence number k; the counters stay within slotCount of each other; neither compare-and-swap is ever lost |
| HFTRings.AnswersMean | messages/msg_hft_shared_memory.go:251-353 | full is answered exactly when all slots are taken at the load of the read counter, empty exactly when read equals write at the load of the write counter, and the slot checks after them never fail |
| HFTRings.ApplyKeeps | messages/msg_hft_shared_memory.go:246-363 | every step of either side keeps the state and contents of every slot of the window |
| HFTRings.PublishesMean | messages/msg_hft_shared_memory.go:246-284 | in every run the messages written are those passed to the publishes not refused, in this order, with their numbers and, where they had no timestamp, the clock reading; a publish ends as published exactly when it advances the counter, and otherwise as full |
| HFTRings.ConsumesMean | messages/msg_hft_shared_memory.go:325-363 | in every run a consume ends as consumed exactly when it advances the counter, and otherwise as nothing ready |
| HFTRings.FullMeans | messages/msg_hft_shared_memory.go:251-257 | a publish that ends as full found all slots taken at a moment of its own |
| HFTRings.EmptyMeans | messages/msg_hft_shared_memory.go:334-340 | a consume that ends as nothing ready found no message at a moment of its own |
| HFTRings.WaitFree | messages/msg_hft_shared_memory.go:246-363 | every call of either side ends after at most six steps of its own, whatever the other side does |
| Masks.MaskIsModulo | messages/msg_hft_shared_memory.go:259-260 | for slot counts that are accepted, masking takes the remainder |
| Masks.PowerOfTwoMeans | messages/msg_hft_shared_memory.go:143-145 | the bit test accepts exactly the powers of two |
| MessageCodec.serializeMessage | messages/msg_shared_memory.go:431-504 | fills exactly the size it computed with the layout of the message |
| MessageCodec.deserializeMessage | messages/msg_shared_memory.go:507-578 | reads what Decode says, including the short-data error and the panics past the end |
| MessageCodec.DecodeExact | messages/msg_shared_memory.go:507-578 | data of 24 bytes or more decodes to m exactly when it starts with the layout of m and m's lengths fit 32 bits |
| MessageCodec.LayoutExact | messages/msg_shared_memory.go:431-504 | the layout byte by byte: each text behind its length, then partition, offset, timestamp and number of headers, then the headers; every number with its least significant byte first |
| MessageCodec.ErrorsExact | messages/msg_shared_memory.go:507-578 | the short-data error arises exactly below 24 bytes, and a panic exactly on other data that does not start with a message whose lengths fit |
| MessageCodec.RoundTrip | messages/msg_shared_memory.go:431-578 | what the encoder writes for a message whose lengths fit decodes to that message |
| MessageCodec.ShortDataPanics | messages/msg_shared_memory.go:508-510 | data of 24 to 35 bytes passes the length check and always panics; no encoded message is that short |
| Readers.ManyExact | messages/msg_shared_memory.go:551-567 | reading a number of things one after another yields exactly the things that stand there |
| Graphs.DirectedGraph.IsCyclic | algo/graph.go:389-401 | terminates and is true exactly when a node reachable from the graph's nodes reaches itself by one or more child steps |
| Graphs.DirectedGraph.isCyclicDFS | algo/graph.go:404-420 | either finds a walk from the root that comes back to itself, or finishes the node with all it reaches and restores the recursion stack |
| Graphs.UndirectedGraph.IsCyclic | algo/graph.go:423-434 | true exactly when distinct edges join distinct nodes in a ring: a self-loop, two parallel edges, or a longer cycle |
| Graphs.isCyclicUndirectedDFS | algo/graph.go:437-455 | either finds a cycle, or leaves every finished node with its parent and, once each, children finished before it |
| Graphs.UndirectedGraph.AddNode | algo/graph.go:76-92 | appends a fresh node without edges and keeps edges and child lists in step |
| Graphs.UndirectedGraph.AddEdge | algo/graph.go:110-123 | appends the edge and enters it in the child lists of both ends, twice for a self-loop; a graph in step stays so exactly when both ends are among its nodes |
| Graphs.UndirectedGraph.RemoveEdge | algo/graph.go:366-386 | removes all edges between the two nodes, in either direction, from edges and from both child lists, and keeps a graph in step, whether or not the nodes are in it |
| Graphs.UndirectedGraph.RemoveNode | algo/graph.go:311-345 | removes the node, all its edges and all mentions of it, and keeps the rest |
| Walks.FinishedAcyclic | algo/graph.go:404-420 | once every root is finished, no reachable node reaches itself |
| Walks.ForestHoldsNoCircle | algo/graph.go:437-455 | once every node is finished, the symmetric child lists hold no cycle |
| Walks.CircleFound | algo/graph.go:440-448 | a marked child that is not the parent closes a cycle |
| Walks.RingIsCircle | algo/graph.go:110-123 | a ring of edges is a cycle of the child lists |
| Walks.CircleIsRing | algo/graph.go:110-123 | a cycle of the child lists is a ring of edges |
| Words.popcount | algo/roaring_bitmap.go:530-537 | clearing the lowest one-bit until none is left counts the one-bits |
| Words.DecrementSubtracts | algo/roaring_bitmap.go:534 | the borrow on bits subtracts one, wrapping around at zero |
| Containers.contains | algo/roaring_bitmap.go:177-191 | binary search, or the bit test, decides membership |
| Containers.add | algo/roaring_bitmap.go:193-219 | adds one element; an array that grows past 4096 turns into a bitmap |
| Containers.remove | algo/roaring_bitmap.go:221-242 | removes one element; a bitmap that falls below 4096 turns into an array |
| Containers.union | algo/roaring_bitmap.go:248-293 | the union of the elements for all four pairs of containers, well-formed |
| Containers.intersection | algo/roaring_bitmap.go:295-323 | the intersection for all four pairs, well-formed |
| Containers.difference | algo/roaring_bitmap.go:325-365 | the difference for all four pairs, well-formed |
| Containers.toArray | algo/roaring_bitmap.go:503-517 | the strictly ascending listing of a bitmap |
| Containers.ListedBits | algo/roaring_bitmap.go:425-431 | the sum of the words' bit counts is the number of elements, and the length of the listing |
| RoaringBitmaps.RoaringBitmap.Add | algo/roaring_bitmap.go:49-60 | adds exactly the element |
| RoaringBitmaps.RoaringBitmap.Contains | algo/roaring_bitmap.go:63-71 | decides membership |
| RoaringBitmaps.RoaringBitmap.Remove | algo/roaring_bitmap.go:74-86 | removes exactly the element and leaves no empty container |
| RoaringBitmaps.RoaringBitmap.Cardinality | algo/roaring_bitmap.go:89-95 | the number of elements |
| RoaringBitmaps.RoaringBitmap.Union | algo/roaring_bitmap.go:98-116 | a fresh bitmap of the union; neither operand changes |
| RoaringBitmaps.RoaringBitmap.Intersection | algo/roaring_bitmap.go:119-132 | a fresh bitmap of the intersection, without empty containers |
| RoaringBitmaps.RoaringBitmap.Difference | algo/roaring_bitmap.go:135-150 | a fresh bitmap of the difference, without empty containers |
| RoaringBitmaps.RoaringBitmap.ToArray | algo/roaring_bitmap.go:153-173 | the strictly ascending listing of all elements, as long as the cardinality |
| Bits32.FirstZero | optz/pool.go:269-288 | for any word that is not all ones, the bit trick finds a zero bit |
| Bits32.FirstZeroBelow | optz/pool.go:269-288 | and all bits below it are ones |
| WordTree.Covers | optz/pool.go:197-203 | the low one-bits of a word on any level stand for indices that are all held |
| WordTree.DescendStep | optz/pool.go:198-203 | under a word with room the first clear bit leads to the least free index |
| WordTree.FlipLinks | optz/pool.go:211-227 | writing a bit repairs its link and moves the fault, if any, to the link above |
| Indexers.Indexer.constructor | optz/pool.go:169-181 | for every capacity, zero included: the least number of levels, the words for the capacity, and nothing held |
| Indexers.Indexer.Use | optz/pool.go:183-231 | with fewer than capacity indices held and counted, returns the least free index below capacity, holds it and counts it |
| Indexers.Indexer.mark | optz/pool.go:211-227 | keeps an internal bit set exactly when its child word is all ones, and holds one more index |
| Indexers.Indexer.Release | optz/pool.go:233-267 | gives the index back and no other, keeping the same rule, and counts one less; the counter still agrees with the tree exactly when the index was held |
| UnionFinds.UnionFind.constructor | algo/union_find.go:23-38 | every element alone in its class |
| UnionFinds.UnionFind.Find | algo/union_find.go:42-79 | returns the root, and compression changes no element's root |
| UnionFinds.UnionFind.findWithoutLocking | algo/union_find.go:111-131 | the same; both loops end because ranks rise along links |
| UnionFinds.UnionFind.Union | algo/union_find.go:83-107 | joins exactly the two classes; count falls by one exactly when they differed |
| UnionFinds.UnionFind.Connected | algo/union_find.go:134-139 | decides whether two elements share a class and changes no class |
| UnionFinds.UnionFind.Count | algo/union_find.go:142-147 | the number of roots, hence of classes |
| UnionFinds.Compressed | algo/union_find.go:72-76 | redirecting an element to its root leaves every root as it was |
| UnionFinds.LinkedValid | algo/union_find.go:95-106 | linking two roots merges their classes, keeps ranks rising, and keeps classes of rank k at 2^k members or more |
| UnionFinds.RankBound | algo/union_find.go:16 | 2^rank of any element, root or not, never exceeds the number of elements |
| UnionFinds.DepthBound | algo/union_find.go:118-121 | 2^depth of any element never exceeds the number of elements, so Find walks at most log2(n) links |
| LFUs.LFU.Get | algo/lfu.go:49-62 | returns the value if present, and then counts and dates the access |
| LFUs.LFU.Set | algo/lfu.go:68-100 | updates and counts an existing key; a new key in a full cache replaces the least frequently used, least recent key, always in a valid cache and in any other exactly when the list at minFreq exists |
| LFUs.LFU.Delete | algo/lfu.go:104-115 | removes exactly the key, and no entry object is new |
| LFUs.LFU.Clear | algo/lfu.go:213-220 | empties the cache and its items, and keeps the capacity |
| LFUs.LFU.Resize | algo/lfu.go:193-210 | sets the capacity and evicts by the policy; ends exactly when the surplus is no more than the length of the list at minFreq, which if it exists is the number of least accessed keys; the cache is valid afterwards exactly when it has room left or the surplus was less than that length |
| LFUPolicy.ThreeKeys | algo/lfu.go:193-210 | three keys set and two of them read leave one least accessed key, so that shrinking to one key does not end |
| LFUs.LFU.evict | algo/lfu.go:146-164 | removes the policy's victim whenever the list at minFreq exists, and nothing otherwise |
| LFUs.LFU.incrementFreq | algo/lfu.go:118-143 | moves the entry up one frequency, keeping minFreq and the order by recency |
| LFUs.LastIsVictim | algo/lfu.go:151-162 | the back of the list at minFreq is the least frequent key, least recent among ties |
| LFUs.MinFreqIsLeast | algo/lfu.go:152 | where its list exists, as it does in a full cache, minFreq is the least frequency |
| LeakyBuckets.RateLimiter.redisAllow | stability/redis_ratelimit.go:23-64 | the script's effect on the stored fields of one key and its reply |
| LeakyBuckets.RateLimiter.allowWithDelay | stability/redis_ratelimit.go:337-359 | turns away requests beyond the burst without touching the state, and serves any other by the script |
| LeakyBuckets.LevelKept | stability/redis_ratelimit.go:32-58 | in every run the level stays between zero and the capacity |
| LeakyBuckets.WindowBound | stability/redis_ratelimit.go:39-56 | calls within [a, b] are admitted at most capacity + ceil((b - a) / leak) units |
| LeakyBuckets.ServedByKey | stability/redis_ratelimit.go:337-359 | in a run of requests on any keys, those beyond the burst included, each key fares as its own calls within the burst alone would leave it |
| LeakyBuckets.LevelsKept | stability/redis_ratelimit.go:337-359 | in every such run all stored levels stay between zero and the burst |
| LeakyBuckets.KeyWindowBound | stability/redis_ratelimit.go:337-359 | in every such run within [a, b] each key is let through for at most burst + ceil((b - a) / leak) units |
| LeakyBuckets.LevelExact | stability/redis_ratelimit.go:32-58 | the level at any time is exactly what has been admitted since the bucket was last empty, or since the start, less the whole units leaked since |
| LeakyBuckets.KeyRefused | stability/redis_ratelimit.go:50-56 | a request within the burst is refused only when it and that level exceed the burst; a new key starts empty |
| LeakyBuckets.ClockBack | stability/redis_ratelimit.go:35-37 | when the clock has gone back nothing leaks and the time counts from now |
| LeakyBuckets.RetryAdmitted | stability/redis_ratelimit.go:50-56 | a denied call repeated with none between is admitted exactly when the wait is at least the delay less the time already run towards the next leak |
| LeakyBuckets.RetryAfterDelay | stability/redis_ratelimit.go:50-56 | in particular it is admitted after the delay |
| LeakyBuckets.leakDuration | stability/redis_ratelimit.go:427-437 | the whole nanoseconds in which one unit leaks, and at least one |
| Sharding.Hash | algo/consistent_hash.go:13-24 | the FNV-1a value of the key |
| Sharding.FnvKnown | algo/consistent_hash.go:13-24 | published FNV-1a values of the empty text, "a" and "b" |
| Sharding.GetBucket | algo/consistent_hash.go:28-34 | an index below the number of buckets, fixed by the key; the number is cut to 32 bits, and the division panics exactly when a positive number leaves zero |
| Sharding.GetWorker | efflux/sharding_worker_pool.go:63-70 | a worker there is, fixed by the request's ID; panics exactly with no workers or a multiple of 2^32 of them |
| Sharding.RedisKeyInjective | stability/redis_ratelimit_batch_v3.go:303-308 | different keys never share a stored bucket |
| Sharding.IdOfRequest | stability/redis_ratelimit_batch_v3.go:87-95 | requests for a key are spread by the key, those for no key by the name of the limiter, and without both by "default" |
| Sharding.OneShardPerKey | stability/redis_ratelimit_batch_v3.go:87-95 | requests that touch one stored bucket have one ID, hence one shard |
| BatchLimiters.calculateRefillTokens | stability/redis_ratelimit_v3.go:300-317 | the tokens earned in the time, rounded down to whole ones, and none without limit or elapsed time |
| BatchLimiters.Pipeline.executePipeline | stability/redis_ratelimit_batch_v3.go:378-512 | each key's requests are granted first come, first served from its refilled tokens, its stored tokens change by refill less grants, and other keys stay |
| BatchLimiters.Pipeline.Start | stability/redis_ratelimit_batch_v3.go:344-365 | a shard that runs batch after batch leaves each key as its own requests, in order, would alone |
| BatchLimiters.TokensKept | stability/redis_ratelimit_batch_v3.go:436-477 | in every run the stored tokens stay between zero and the burst |
| BatchLimiters.WindowBound | stability/redis_ratelimit_batch_v3.go:378-512 | batches within [a, b] grant a key at most burst + limit * (b - a) / 1e9 units |
| BatchLimiters.ShardWindowBound | stability/redis_ratelimit_batch_v3.go:344-512 | the same bounds for a key of a shard that serves many keys |
| BatchLimiters.GrantsExact | stability/redis_ratelimit_batch_v3.go:453-459 | a request is granted exactly when it fits what the requests before it in the batch have left |
| BatchLimiters.AvailableExact | stability/redis_ratelimit_batch_v3.go:436-451 | a batch finds the burst for a new key, and otherwise the stored tokens and the whole tokens earned since, up to the burst |
| BatchLimiters.FirstGranted | stability/redis_ratelimit_batch_v3.go:436-459 | the first request of a batch, if within the burst, is granted exactly when the key is new or it fits the stored tokens and those earned since |
| BatchLimiters.TokensEarned | stability/redis_ratelimit_batch_v3.go:436-480 | in every run the tokens left and granted are those there were and those earned, but for less than one token in each batch, or at least the burst |
| BatchLimiters.RefusedInRun | stability/redis_ratelimit_batch_v3.go:436-480 | what a key is refused in a run does not fit the burst, or the tokens it had and earned less those granted, up to one token for each batch |
| BatchLimiters.ShardEarns | stability/redis_ratelimit_batch_v3.go:344-512 | the same lower bound for a key of a shard that serves many keys |
| BatchLimiters.StarvesExactly | stability/redis_ratelimit_batch_v3.go:436-480 | an empty bucket stays empty and grants nothing in a run exactly when no gap between batches earns a whole token |
| BatchLimiters.HalfSecondsStarve | stability/redis_ratelimit_batch_v3.go:436-480 | at one unit a second, one request each half second is never granted |
| CircuitBreakers.DefaultCircuitBreaker.allowRequest | stability/default_circuit_breaker.go:216-232 | brings the state up to date and admits by it |
| CircuitBreakers.DefaultCircuitBreaker.recordResult | stability/default_circuit_breaker.go:268-320 | counts the result and closes or opens the breaker by the counts, as ClosedLeft and HalfOpenLeft say of runs |
| CircuitBreakers.AlwaysConsistent | stability/default_circuit_breaker.go:268-320 | in every run requests are successes plus failures, and a half-open breaker has seen only successes, fewer than MaxRequests |
| CircuitBreakers.HalfOpenAdmits | stability/default_circuit_breaker.go:227-228 | a half-open breaker admits every request |
| CircuitBreakers.HalfOpenUnlimited | stability/circuit_breaker.go:120-122 | a run, tripped and then half-open after the timeout, in which MaxRequests + 1 requests pass |
| CircuitBreakers.HalfOpenLimit | stability/circuit_breaker.go:120-122 | from every reachable half-open breaker, as long as it stays half-open, all requests asked pass; so at most MaxRequests pass exactly when at most MaxRequests are asked |
| CircuitBreakers.OpenLasts | stability/default_circuit_breaker.go:247-257 | an open breaker stays open, refusing every request, until it is reset or the timeout since it opened is over |
| CircuitBreakers.OpenLeft | stability/default_circuit_breaker.go:131-158 | in every run the open state is left exactly by Reset, or by a call later than Timeout after the latest opening or Trip |
| CircuitBreakers.CountsExact | stability/default_circuit_breaker.go:235-320 | in every run the counts are those of the results since the last clearing, which is a reset, half-opening, closing, or a call later than Interval after the clearing before on a closed breaker |
| CircuitBreakers.ClosedLeft | stability/default_circuit_breaker.go:300-312 | in every run the closed state is left exactly by Trip, or by a failure for which ReadyToTrip holds of the results since the last clearing and this failure |
| CircuitBreakers.HalfOpenLeft | stability/default_circuit_breaker.go:282-320 | the half-open state is left for open exactly by Trip or a failure, for closed exactly by Reset or success number MaxRequests |
| CircuitBreakers.RefusedExactly | stability/default_circuit_breaker.go:216-257 | in every run a request is refused exactly by a breaker that is open and opened no longer than Timeout ago |
| CircuitBreakers.DefaultTrips | stability/default_circuit_breaker.go:52-56 | by default a closed breaker opens on a result exactly when it is the sixth failure in a row, or a later one |

## Left out

- Redis, Kafka, NATS, MongoDB and the other clients, loggers and HTTP layers: calls into libraries that are not shown.
- Expiry of Redis keys, Redis errors and `FailOpen`: a key's state is what the last call stored.
- Wrap-around of the 64-bit ring counters and of the breaker's counters: they are unbounded numbers here.
- Closing and destroying rings, mapping files, pinning processors: the buffer is open throughout.
- The message pointer after `Consume` returns: the slot may be rewritten by then, so only the contents at the claim are described.
- `ConsumeCopy`, and the busy-waiting variants of publish and consume: they only repeat the modelled calls.
- Concurrent use of `UnionFind` and `indexer`, and the indexer's channel wait: both are modelled sequentially.
- RoaringBitmap containers: they are values, since the source never changes one after storing it; only the words of a container under construction are an array.
- Directed graphs' edge list and edits: the search only reads nodes and children, over any closed finite set of them.
- BFS, DFS, `FindNode`, `HasEdge` and `GetEdge` of the graphs: easy members.
- `DynamicLFU`, which reads memory statistics.
- How a shard's queue is cut into batches, its ticker and its result map: a run is any sequence of batches in time order.
- Batch limiter versions other than v3, and the reserve and token-count scripts.
- Floating-point rounding of limits: limits are reals, and the Lua numbers are integers.
- `UpdateConfig`, listeners and callbacks of the breaker.
- Floating-point computation of the indexer's level: the exact logarithm is taken.
- Tree printing, slice and channel queues, deques, stacks, linked lists, tries, sampling, timers and schedulers.
