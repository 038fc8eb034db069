# Verified model of a market data pipeline

This project models the path from a Nasdaq TotalView-ITCH 5.0 byte stream to trading strategies: framed
messages are parsed, applied to one order book for each instrument, and every change of a book's best bid
or ask is broadcast over a lock-free queue to strategy threads. It proves what each stage keeps and that the
stages fit together. `dafny verify dfyconfig.toml` checks everything.

How it is organised:

- **Queues.** `SpmcSteps` and `SpscSteps` are step systems: every atomic load or store and every word of a
  data copy is one step, and threads interleave freely. Invariants are proved step by step and lifted to all
  runs. `SpmcQueue` and `SpscQueue` are the objects of the code, and each of their calls is proved to be a run
  of the step system. The indices of the single-consumer ring wrap at 2^64.
- **Price levels.** `LevelSpec` is the common specification: a map from price to quantity, with a best level
  and a rule for when a change is reported. It is the structure of `include/levels/btree_level.hpp`. Ten
  level structures are related to it, each a class edited in place: the split vector behind the live book, one vector
  scanned or searched, a fixed array scanned or searched, a vector beside a map, an array indexed by price, a map
  with a remembered best price, and a lazily cleaned heap over a map or over a hand-written hash table. For eight of
  them a driver runs any legal sequence of additions and removals and returns the best levels along it: the same
  levels for every structure, except that the directly indexed array names its resting price where the others say
  `(0, 0)` for an empty side. For the map with a remembered price the driver is right exactly on some runs.
- **Order book.** `BookSpec` is the book as a state machine, including its aborts. `BookTheorems` relates the
  levels, which are kept by deltas, to the live orders, the reported changes to the true best, and the shares
  that came in to those that went out. `BookEffects` says of each operation what it does to the two sides and the
  orders, without the definitions of the machine. `OrderBook` and `SingleStratOrderBook` are the mutable objects, proved to
  be that machine; `BookSides` is what they share.
- **Messages.** `ItchFields` has layouts, offsets and loads, `ItchMessages` the layouts of the nine message types
  the handler accepts, `ItchParser` the parse loop. `ItchBytes` gives the nine messages byte by byte: positions,
  sizes, and what each asks the book or the handler to do.
- **Handler.** `HandlerSpec` is the routing of messages by stock locate, `Handler` the object with its tables of
  books and queues, `HandlerTheorems` what a run does to flags, queues and stamps, `Pipeline` the parse loop
  feeding that object. `TopOfBook` and `EndToEnd` join parser, handler, book and queue: after every pop a strategy holds the best bid and ask as of the update it popped.
  `SingleStratView` says the same of the strategy behind the single-consumer ring.

What the proofs found out about the code:

- `load_be` for 48-bit fields takes its low 16 bits from the first two bytes. A timestamp is decoded correctly if
  and only if its low and top 16 bits are equal. The handler does not use timestamps, so nothing downstream is
  affected.
- A frame that announces size 0 consumes two bytes but dispatches on the third, which belongs to the next frame.
- The exception for an unknown message type names the byte after the type.
- `SingleStartOrderBook::replace_order` inserts the new order before it erases the old one, so replacing an order
  under its own id loses the order while its level keeps the shares. The strategy still sees true levels.
  `OrderBook` does not have this defect.
- Parsing two buffers in turn is parsing their concatenation, whatever the second one is, if and only if the first has
  acceptable frames only, ends on a frame boundary, and does not end with an empty frame.
- Adding an order under a live id changes the level but not the order, so levels and orders part. With quantity 0
  this is harmless if and only if the level exists.
- `HeapLevelsCustomMap` loses a price that was first added with quantity 0 and asked for before more was added.
  `HeapLevels` does not. `HeapLevelsCustomMap` also loses whatever is added at price 0, which its hash table takes
  for a free slot.
- `PriceToQtyMap::insert` of a key that is there already stores it twice.
- `MapLevels` forgets nothing of a best price whose side has run empty: after that, and on the ask side from the
  start, it answers "empty" until a price at least as good is added. All answers of a run are right if and only if no
  addition to an empty side is worse than the price removed last, or than 0 at first.
- `ArrayLevelsV2` lets price 2000000 through to a slot beyond its array.
- `HybridVectorMap::best` swaps price and quantity.
- A consumer may pop an element before the producer has stored the new writer index, so its reader index can be one
  above the writer index.
- `add` reports the best level also when only a new second-best price appeared. Reports are therefore proved to
  be true and silence to mean "unchanged", not that every report is news.

## Model

| member | source | states |
|---|---|---|
| `SlotCounting.CountTellsGeneration` | include/spmc_queue.hpp:83-86 | The number of pushes completed into the slot of push `r` tells, in both directions, whether push `r` is missing, is the latest one in its slot, or has been overwritten: the arithmetic that makes one 64-bit version per slot enough. |
| `SpmcSteps.InitInv` | include/spmc_queue.hpp:62-66 | A fresh queue satisfies the invariant that ties versions, slot data, consumers and push history together. |
| `SpmcSteps.VersionDecides` | include/spmc_queue.hpp:82-94 | With the mask and shift arithmetic of the code, the version at `reader & mask` is smaller than, equal to or larger than the expected one exactly when push `reader` is incomplete, is complete and not being overwritten, or has been overwritten. |
| `SpmcSteps.PopReturnsPushNumberReader` | include/spmc_queue.hpp:100-106 | A second version check that passes delivers the whole value of push number `reader` although the words were copied one at a time while the producer ran on; it fails exactly when the producer has reached that slot again. |
| `SpmcSteps.StepInv` | include/spmc_queue.hpp:68-107 | Every atomic load or store and every copied word, of the producer or of any consumer, keeps the invariant. |
| `SpmcSteps.RunInv` | include/spmc_queue.hpp:68-107 | The invariant survives every interleaving of any length. |
| `SpmcSteps.ReachableInv` | include/spmc_queue.hpp:68-107 | Every reachable state satisfies the invariant. |
| `SpmcTheorems.PopsAreHistorySegment` | include/spmc_queue.hpp:81-107 | In every reachable state what a consumer has returned is the segment of the push history from its start index to its reader index: no gap, no repetition, no torn value. |
| `SpmcTheorems.ConsumerReadsFromWriter` | include/spmc_queue.hpp:43-55 | The consumer made in a reachable state has, in every later state, returned exactly the history from the writer index at its creation up to its reader index. |
| `SpmcTheorems.HistoryIsPushes` | include/spmc_queue.hpp:68-79 | The history of a run is the values its pushes were given, in order. |
| `SpmcTheorems.ConsumersAgree` | include/spmc_queue.hpp:81-107 | Two consumers that have both returned push number `j` returned the same value for it. |
| `SpmcTheorems.SlotVersion` | include/spmc_queue.hpp:72-76 | In every reachable state a slot's version is twice the pushes completed into it, plus one while it is being written. |
| `SpmcTheorems.FirstLoadDecides` | include/spmc_queue.hpp:88-94 | The first version check answers "nothing new", "overrun" or "copy" exactly when the push is incomplete, the consumer has been lapped, or neither. |
| `SpmcTheorems.CompletedPopIsExact` | include/spmc_queue.hpp:100-106 | A pop that returns true appends exactly the push it was waiting for; the overrun abort fires exactly when the consumer was lapped. |
| `SpmcTheorems.ReaderBound` | include/spmc_queue.hpp:78-104 | `reader` never exceeds `writer + 1`, and is above `writer` only while the producer has made the version even but not yet stored the writer index. |
| `SpmcTheorems.ReaderCanPassWriter` | include/spmc_queue.hpp:76-79 | That bound is tight: there is a run after which a consumer has popped element `writer`. |
| `SpmcTheorems.RunsOnlyExtend` | include/spmc_queue.hpp:68-107 | Along any run the push history and each consumer's pops only grow at their end. |
| `SpmcTheorems.ReachableExtends` | include/spmc_queue.hpp:68-107 | A run from a reachable state ends in a reachable state. |
| `SpmcTheorems.PushRun` | include/spmc_queue.hpp:69-79 | An uninterrupted `push` is a run of the step system that appends one value to the history and touches one slot only. |
| `SpmcTheorems.PopRun` | include/spmc_queue.hpp:82-107 | An uninterrupted `pop` of a slot with the expected version is a run that moves the slot's value to the consumer. |
| `SpmcTheorems.PopDelivers` | include/spmc_queue.hpp:82-107 | A consumer that has not been lapped can always pop a completed push, and gets that push. |
| `SpmcQueue.SPMCQueue.constructor` | include/spmc_queue.hpp:62-65 | A new queue is an initial state of the step system. |
| `SpmcQueue.SPMCQueue.Push` | include/spmc_queue.hpp:69-79 | The in-place `push` is that run of the step system next to any set of idle consumers, appends the value, and leaves the facts known of every idle consumer intact. |
| `SpmcQueue.SPMCQueue.PopIsRun` | include/spmc_queue.hpp:82-107 | Taking that slot's value is a run of the step system next to any other consumers. |
| `SpmcQueue.SPMCQueue.TakesNextPush` | include/spmc_queue.hpp:98-104 | A slot with the expected version holds the push the consumer waits for. |
| `SpmcQueue.SPMCQueue.MakeIsRun` | include/spmc_queue.hpp:43-55 | Making a consumer on an idle queue, next to any other consumers, is one step of the step system, starting at the current writer index. |
| `SpmcQueue.Consumer.constructor` | include/spmc_queue.hpp:43-55 | A new consumer starts at the current writer index, and its construction is that step next to any other consumers. |
| `SpmcQueue.Consumer.Pop` | include/spmc_queue.hpp:82-107 | Between pushes, `pop` returns the next value exactly, returns false exactly when there is none, and aborts exactly when the consumer is more than a whole ring behind; when it returns a value it is that run of the step system. |
| `SpscSteps.WrappedSlot` | include/spsc_queue.hpp:72 | Masking a wrapped 64-bit counter gives the slot of the true, unbounded count. |
| `SpscSteps.UsedIsTrueDifference` | include/spsc_queue.hpp:54-56 | `used` on wrapped counters is the true number of waiting elements, and equal counters mean an empty queue, also across the wrap. |
| `SpscSteps.QStepInv` | include/spsc_queue.hpp:58-131 | Every step of the two threads, with indices loaded at different times and values written and read word by word, keeps the invariant. |
| `SpscSteps.QRunInv` | include/spsc_queue.hpp:58-131 | The invariant survives every interleaving. |
| `SpscSteps.QReachableInv` | include/spsc_queue.hpp:58-131 | Every reachable state satisfies the invariant. |
| `SpscSteps.Fifo` | include/spsc_queue.hpp:58-131 | Popped values are always a prefix of the pushed ones, and the wrapped difference of the indices is the number waiting and below the number of slots. |
| `SpscSteps.NoSharedSlot` | include/spsc_queue.hpp:72-77 | While the producer writes a slot and the consumer reads one, they are different slots. |
| `SpscSteps.RefusalsAreExact` | include/spsc_queue.hpp:63-70 | Judged by the index value it loads, `try_push` gives up exactly when all slots but one are taken and `try_pop` exactly when nothing is waiting. |
| `SpscSteps.LifetimesBalance` | include/spsc_queue.hpp:73-127 | An object is constructed only in a slot that holds none and destroyed only in a slot that holds one. |
| `SpscRuns.PushRun` | include/spsc_queue.hpp:59-81 | An uninterrupted `try_push` with room is a run of the step system that appends the value and constructs one object. |
| `SpscRuns.PopRun` | include/spsc_queue.hpp:109-131 | An uninterrupted `try_pop` of a queue that is not empty is a run that takes the oldest value and ends one object's lifetime. |
| `SpscQueue.SPSCQueue.constructor` | include/spsc_queue.hpp:46-50 | A new queue is empty and an initial state of the step system. |
| `SpscQueue.SPSCQueue.TryPush` | include/spsc_queue.hpp:59-81 | The in-place `try_push` is that run, succeeds exactly when fewer than all slots but one are taken, and otherwise changes nothing. |
| `SpscQueue.SPSCQueue.TryPop` | include/spsc_queue.hpp:109-131 | The in-place `try_pop` is that run, takes the oldest value, and fails exactly on an empty queue, changing nothing. |
| `SpscQueue.SPSCQueue.Destroy` | include/spsc_queue.hpp:29-40 | The destructor's walk over the wrapped indices destroys every object still held, each once, and no slot without one. |
| `LevelSpec.BestUnique` | include/levels/btree_level.hpp:60-67 | A price map has at most one best level. |
| `LevelSpec.BestExists` | include/levels/btree_level.hpp:60-67 | Every price map, empty or not, has a best level. |
| `LevelSpec.SilentAddKeepsBest` | include/levels/vector_levels_b_search_split.hpp:96-111 | When an addition reports nothing, the best level is the one before. |
| `LevelSpec.SilentRemoveKeepsBest` | include/levels/vector_levels_b_search_split.hpp:61-63 | When a removal reports nothing, the best level is the one before. |
| `SortedLevels.BestIsLast` | include/levels/vector_levels_b_search_split.hpp:26-33 | In a vector sorted from worst to best the last level is the best of the price map, `(0, 0)` standing for none. |
| `SortedLevels.AddRefines` | include/levels/vector_levels_b_search_split.hpp:99-104 | Updating or inserting at the lower bound keeps the vector sorted and adds to the price map, with 64-bit wrap-around. |
| `SortedLevels.RemoveRefines` | include/levels/vector_levels_b_search_split.hpp:49-59 | The two checks fail exactly when removal from the price map does, for the same reason; otherwise the edit keeps the vector sorted and removes from the map. |
| `SortedLevels.LowerBoundCounts` | include/levels/vector_levels_b_search_split.hpp:97 | The position of the lower bound counts the prices that are at least as good, which is what the notification test looks at. |
| `SortedLevels.LowerBound` | include/levels/vector_level_b_search.hpp:64-73 | The binary search stops at the only place where everything before is worse and nothing after is. |
| `SortedLevels.PriceLowerBound` | include/levels/vector_levels_b_search_split.hpp:38-47 | The same over the vector of prices. |
| `SortedLevels.PastBetterIsLowerBound` | include/levels/vector_level.hpp:46-61 | The scan back from the best end arrives where binary search would. |
| `SplitLevels.SplitAdd` | include/levels/vector_levels_b_search_split.hpp:99-111 | Editing the two parallel vectors adds to one price map and reports what the map-level rule prescribes. |
| `SplitLevels.SplitRemove` | include/levels/vector_levels_b_search_split.hpp:55-59 | Editing the two parallel vectors removes from one price map. |
| `SplitLevels.SplitRemoveChange` | include/levels/vector_levels_b_search_split.hpp:61-76 | A removal reports the new last level exactly when it touched the last one. |
| `SplitLevels.SplitRemoveFails` | include/levels/vector_levels_b_search_split.hpp:49-53 | The two aborts are those of the price map. |
| `SplitLevels.VectorLevelBSearchSplit.Best` | include/levels/vector_levels_b_search_split.hpp:26-33 | The best level of the price map, `(0, 0)` when it is empty. |
| `SplitLevels.VectorLevelBSearchSplit.Remove` | include/levels/vector_levels_b_search_split.hpp:36-80 | For every input the in-place edit refines removal from the price map: same map or same abort with nothing changed, and the reported change is the one of the rule. |
| `SplitLevels.VectorLevelBSearchSplit.TakeOff` | include/levels/vector_levels_b_search_split.hpp:55-59 | The edit of both vectors at the found index is removal from the price map. |
| `SplitLevels.VectorLevelBSearchSplit.Add` | include/levels/vector_levels_b_search_split.hpp:83-112 | For every input the in-place edit refines addition to the price map and reports the change of the rule, including the report for a new second-best price. |
| `SplitLevels.SplitBests` | include/levels/vector_levels_b_search_split.hpp:26-112 | Asked after every step of any legal run, the structure names the best level of the specification. |
| `LevelRuns.LegalRunIsPositive` | include/levels/heap_level.hpp:37-69 | A legal run never leaves a price with quantity 0. |
| `LevelRuns.AnswersAgree` | include/levels/array_level_binary_search.hpp:24-79 | Any two structures proved to answer the run of the specification give the same best level after every step, wherever the side is not empty. |
| `HeapBooks.TopExists` | include/levels/heap_level.hpp:59-60 | A heap that is not empty has a top. |
| `HeapBooks.TopIsBest` | include/levels/heap_level.hpp:60-64 | A top that is alive is the best of all live prices the heap knows. |
| `HeapBooks.CoveredIsFound` | include/levels/heap_level.hpp:37-43 | A heap with an entry for every live price loses none of them, whatever stale and duplicate entries it has. |
| `HeapBooks.PriorityQueue.Top` | include/levels/heap_level.hpp:60 | No entry is better than the top. |
| `HeapBooks.PriorityQueue.Push` | include/levels/heap_level.hpp:40 | One more entry, and pushes still account for entries and pops. |
| `HeapBooks.PriorityQueue.Pop` | include/levels/heap_level.hpp:65 | One occurrence of the top is gone, and pushes still account for entries and pops. |
| `HeapBooks.HeapLevels.Add` | include/levels/heap_level.hpp:37-43 | Refines addition for every input, wrap-around and quantity 0 included, and keeps a heap entry for every price with a quantity. |
| `HeapBooks.HeapLevels.Remove` | include/levels/heap_level.hpp:46-55 | Refines removal, aborts included, leaving the heap alone. |
| `HeapBooks.HeapLevels.Best` | include/levels/heap_level.hpp:58-69 | Terminates, leaves the price map unchanged, and returns the best of the prices with a quantity. |
| `HeapBooks.HeapBests` | include/levels/heap_level.hpp:37-69 | Asked after every step of any legal run, the heap names the best level of the specification, with at most one pop for each step in total. |
| `PriceToQtyMaps.Home` | include/levels/hash_map.hpp:41 | Masking a hash gives a bucket of the table, for any hash function. |
| `PriceToQtyMaps.FullExactlyWhenCrowded` | include/levels/hash_map.hpp:43-50 | A bucket has no free slot exactly when eight keys live in it. |
| `PriceToQtyMaps.HoldsAfterSet` | include/levels/hash_map.hpp:44-46 | Writing a free slot, or the slot of the key itself, keeps every key in one slot of its own bucket. |
| `PriceToQtyMaps.HoldsAfterClear` | include/levels/hash_map.hpp:81-83 | Freeing a slot removes exactly its key. |
| `PriceToQtyMaps.HoldsForOthers` | include/levels/hash_map.hpp:40-89 | What happens to keys of one bucket does not show in another. |
| `PriceToQtyMaps.FillBucket` | include/levels/hash_map.hpp:43-47 | Writing a free slot is an insertion under a new key, no change under key 0, and ends the uniqueness of keys under a key that is there. |
| `PriceToQtyMaps.PriceToQtyMap.Insert` | include/levels/hash_map.hpp:40-51 | Takes a free slot or aborts exactly when eight keys share the bucket; the table remains a map if and only if the call aborts or the key is new or 0, and a new key is added to it. |
| `PriceToQtyMaps.PriceToQtyMap.Find` | include/levels/hash_map.hpp:53-63 | Probing backward finds a slot with the key and its value exactly when the key is in the map; for key 0, a free slot exactly when there is one. |
| `PriceToQtyMaps.PriceToQtyMap.Lookup` | include/levels/hash_map.hpp:65-76 | Probing forward gives the value of the map and aborts exactly without the key, so both directions agree; key 0 succeeds exactly when a slot is free. |
| `PriceToQtyMaps.PriceToQtyMap.Erase` | include/levels/hash_map.hpp:78-89 | Erasing removes the key from the finite map and aborts exactly when a probe would not find it; under key 0 nothing is removed. |
| `PriceToQtyMaps.PriceToQtyMap.SetSlot` | include/levels/hash_map.hpp:53-63 | Writing through the pointer that a probe returned changes the value of that key only, and nothing for key 0. |
| `HeapCustomBooks.CoversExactlyWhen` | include/levels/heap_levels_custom_map.hpp:33-42 | An addition keeps an entry for every price with a quantity if and only if the price is new, still has an entry, or ends with quantity 0: the precise limit of pushing only on a missing table entry. |
| `HeapCustomBooks.FindsBestExactlyWhen` | include/levels/heap_levels_custom_map.hpp:57-69 | What the heap finds is the best level if and only if the best price still has an entry. |
| `HeapCustomBooks.HeapLevelsCustomMap.Add` | include/levels/heap_levels_custom_map.hpp:33-42 | Refines addition, and aborts exactly when the price is new and its bucket is full, changing nothing; under price 0 nothing is added. |
| `HeapCustomBooks.HeapLevelsCustomMap.Remove` | include/levels/heap_levels_custom_map.hpp:45-54 | Refines removal, aborts included, for every price but 0, under which nothing is removed. |
| `HeapCustomBooks.HeapLevelsCustomMap.Best` | include/levels/heap_levels_custom_map.hpp:57-69 | Terminates, leaves the price map unchanged, and returns the best of the prices with a quantity that the heap knows. |
| `HeapCustomBooks.CustomHeapBests` | include/levels/heap_levels_custom_map.hpp:33-69 | Asked after every step of any legal run that finds room in the buckets, the heap over the hash table names the best level of the specification, for any hash function. |
| `HeapCustomBooks.EmptyAddHidesPrice` | include/levels/heap_levels_custom_map.hpp:33-69 | Where the promise ends: after adding quantity 0, asking, and adding a real quantity, the structure answers "empty" although the price is there. |
| `HeapCustomBooks.ZeroPriceIsLost` | include/levels/heap_levels_custom_map.hpp:33-42 | Where the promise ends: what is added at price 0 is not there. |
| `ArrayLevelsV2s.TakeOffIsRemove` | include/levels/array_levels_v2.hpp:53-73 | Subtracting without looking for a level is removal on a level that is there, and underflows without one. |
| `ArrayLevelsV2s.ArrayLevelsV2.Add` | include/levels/array_levels_v2.hpp:35-50 | Adds to the map of prices with a quantity, ignores prices beyond the array but for the first, which leaves its bounds, keeps every price better than the best index empty, and keeps the index at a level or at rest exactly under the stated condition. |
| `ArrayLevelsV2s.ArrayLevelsV2.Remove` | include/levels/array_levels_v2.hpp:53-73 | Takes off the map or reports underflow with nothing changed; the index is at a level or at rest again afterwards. The first price beyond the array leaves its bounds. |
| `ArrayLevelsV2s.ArrayLevelsV2.FindBest` | include/levels/array_levels_v2.hpp:62-72 | The scan stays inside the array, terminates, and stops at the next best level or at rest. |
| `ArrayLevelsV2s.ArrayLevelsV2.Best` | include/levels/array_levels_v2.hpp:76-79 | With the index at a level or at rest, the best level, and the resting price with quantity 0 for an empty side. |
| `ArrayLevelsV2s.V2Bests` | include/levels/array_levels_v2.hpp:35-79 | Asked after every step of any legal run below the array bound, the structure names the best level of the specification. |
| `MapBooks.MapLevels.Add` | include/levels/map_level.hpp:27-40 | Adds to the price map, and remembers the price only if it is better than the one remembered. |
| `MapBooks.MapLevels.Remove` | include/levels/map_level.hpp:42-64 | Refines removal, aborts included; while levels are left a remembered price that had a level has one again, and one that had none stays as it is. |
| `MapBooks.MapLevels.FindNext` | include/levels/map_level.hpp:50-60 | The search terminates at the next best level, on either side. |
| `MapBooks.MapLevels.Best` | include/levels/map_level.hpp:66-72 | With positive quantities the answer is the best level if and only if the side is empty or the remembered price has a level. |
| `MapBooks.MapBests` | include/levels/map_level.hpp:27-72 | Over any legal run all answers are the best levels of the specification if and only if no addition to an empty side is worse than the price removed last, or than 0 at first. |
| `MapBooks.AsksStartAtZero` | include/levels/map_level.hpp:22-39 | Where the promise ends: on the ask side all answers can be right only if the first addition is at price 0. |
| `VectorLevels.VectorLevel.Add` | include/levels/vector_level.hpp:45-62 | The scan from the best end refines addition to the price map. |
| `VectorLevels.VectorLevel.Remove` | include/levels/vector_level.hpp:27-42 | The scan from the best end refines removal, aborts included. |
| `VectorLevels.VectorLevel.Best` | include/levels/vector_level.hpp:22-24 | The best level of a side that is not empty. |
| `VectorLevels.VectorBests` | include/levels/vector_level.hpp:22-62 | Asked after every step of any legal run, the structure names the best level of the specification. |
| `VectorLevels.VectorLevelBSearch.Add` | include/levels/vector_level_b_search.hpp:63-80 | Refines addition to the price map. |
| `VectorLevels.VectorLevelBSearch.Remove` | include/levels/vector_level_b_search.hpp:41-60 | Refines removal, aborts included. |
| `VectorLevels.VectorLevelBSearch.Best` | include/levels/vector_level_b_search.hpp:32-38 | The best level, `(0, 0)` for an empty side. |
| `VectorLevels.VectorBSearchBests` | include/levels/vector_level_b_search.hpp:32-80 | Asked after every step of any legal run, the structure names the best level of the specification. |
| `ArrayLevels.ShiftUp` | include/levels/array_level.hpp:80 | The in-place shift moves every level behind the gap one slot up and loses none. |
| `ArrayLevels.ShiftDown` | include/levels/array_level.hpp:52 | The in-place shift closes the gap and loses no other level. |
| `ArrayLevels.AddIn` | include/levels/array_level.hpp:75-82 | The used part of the array becomes what insertion into a vector would make it. |
| `ArrayLevels.RemoveIn` | include/levels/array_level.hpp:50-54 | The used part of the array becomes what erasing from a vector would make it. |
| `ArrayLevels.ArrayLevel.Add` | include/levels/array_level.hpp:58-83 | Refines addition, and aborts exactly when all 3000 slots are in use, also for a price that has a level. |
| `ArrayLevels.ArrayLevel.Remove` | include/levels/array_level.hpp:30-55 | Refines removal, aborts included. |
| `ArrayLevels.ArrayLevel.Best` | include/levels/array_level.hpp:25-27 | The best level of a side that is not empty. |
| `ArrayLevels.ArrayBests` | include/levels/array_level.hpp:25-83 | Asked after every step of any legal run that fits the array, the structure names the best level of the specification. |
| `ArrayLevels.ArrayLevelBSearch.Add` | include/levels/array_level_binary_search.hpp:55-79 | Refines addition, with the same abort condition. |
| `ArrayLevels.ArrayLevelBSearch.Remove` | include/levels/array_level_binary_search.hpp:29-52 | Refines removal, aborts included. |
| `ArrayLevels.ArrayLevelBSearch.Best` | include/levels/array_level_binary_search.hpp:24-26 | The best level of a side that is not empty. |
| `ArrayLevels.ArrayBSearchBests` | include/levels/array_level_binary_search.hpp:24-79 | Asked after every step of any legal run that fits the array, the structure names the best level of the specification. |
| `HybridVectorMaps.LastIsBest` | include/levels/hybrid_vector_map.hpp:81-84 | The last price of the vector is the best price of the map. |
| `HybridVectorMaps.HybridVectorMap.Add` | include/levels/hybrid_vector_map.hpp:35-53 | Refines addition and keeps the vector a sorted list of the map's prices, unless the price is left with quantity 0. |
| `HybridVectorMaps.HybridVectorMap.Remove` | include/levels/hybrid_vector_map.hpp:56-78 | Refines removal; the third abort, for a price of the map that is not in the vector, cannot happen. |
| `HybridVectorMaps.HybridVectorMap.Best` | include/levels/hybrid_vector_map.hpp:81-90 | As written it returns the best level with price and quantity swapped and the quantity cut to 32 bits. |
| `HybridVectorMaps.SwappedIsRight` | include/levels/hybrid_vector_map.hpp:86 | That answer is right if and only if the best level's quantity equals its price. |
| `HybridVectorMaps.SwappedAnswer` | include/levels/hybrid_vector_map.hpp:81-90 | A concrete run: after one addition the answer has quantity and price the wrong way round. |
| `HybridVectorMaps.HybridAfter` | include/levels/hybrid_vector_map.hpp:35-78 | After any legal run the map is the one of the specification. |
| `BookSpec.SumAtUpdate` | include/order_book.hpp:68 | How one order's new quantity moves the sum of its level. |
| `BookSpec.PositiveSum` | include/order_book.hpp:42-49 | A level's sum is positive exactly when some live order is there. |
| `BookSpec.SumAtBound` | include/order_book.hpp:37-48 | With at most 2^32 live orders no level's 64-bit sum can wrap. |
| `BookSpec.OrderIsCovered` | include/order_book.hpp:63-65 | The level of a live order exists and holds at least the order's quantity. |
| `BookProofs.LevelHasRoom` | include/order_book.hpp:45-48 | There is room for one more order at any level while fewer than 2^32 are live. |
| `BookProofs.AbortsOnlyByOwnChecks` | include/order_book.hpp:55-144 | In a book whose levels agree with its orders an operation aborts if and only if the book's own check fails, and never with "Remove didn't find a level" or "Remove underflow". |
| `BookProofs.LegalKeepsInv` | include/order_book.hpp:36-144 | Every legal operation completes and keeps "each level is the sum of its live orders, and exists exactly if there is one". |
| `BookTheorems.InvKeptExactlyWhenLegal` | include/order_book.hpp:36-144 | A completed operation keeps that agreement if and only if it is legal (new id, positive quantity, room) or one of the harmless additions of quantity 0 under a live id. |
| `BookTheorems.DuplicateIdBreaksInv` | include/order_book.hpp:42-46 | Adding the same order twice leaves a level that no live orders account for. |
| `BookTheorems.ReportsAreTruthful` | include/order_book.hpp:99-126 | Whatever the operation and the state, a reported change is its side's best level afterwards, and a side that is not reported has not moved; this covers replacement, which returns only one of its two changes. |
| `BookTheorems.ObserveStaysTrue` | include/order_book.hpp:36-144 | A subscriber that knew both bests and applies the reported change knows both bests again. |
| `BookTheorems.LegalRunKeepsInv` | include/order_book.hpp:36-144 | The agreement of levels and orders holds after every legal run. |
| `BookTheorems.SubscriberKnowsBest` | include/order_book.hpp:27-144 | A subscriber that only replays the changes of a run from the start holds the true best bid and ask. |
| `BookTheorems.StepConserves` | include/order_book.hpp:36-144 | Each legal operation keeps the share ledger balanced. |
| `BookTheorems.SharesAreConserved` | include/order_book.hpp:36-144 | Over every legal run, shares added and replaced in equal shares executed, cancelled, deleted and replaced away plus all shares on both sides. |
| `BookEffects.BestIsExtreme` | include/order_book.hpp:26-34 | The best bid is a highest price, the best ask a lowest one, each with the quantity of its level. |
| `BookEffects.AddSilentExactlyWhen` | include/levels/vector_levels_b_search_split.hpp:96-111 | An addition reports nothing if and only if two different prices of its side were as good already. |
| `BookEffects.RemoveSilentExactlyWhen` | include/levels/vector_levels_b_search_split.hpp:61-76 | A removal reports nothing if and only if some price of its side is better. |
| `BookEffects.AddEffect` | include/order_book.hpp:37-52 | A bid raises the bids and nothing else, any other order the asks and nothing else, by its quantity at its price; the order is recorded with its quantity, price and side under a new id; the reported side is its own. |
| `BookEffects.CancelEffect` | include/order_book.hpp:55-96 | Cancellation and execution lower the level of the order's own price and side by the quantity and no other; the order keeps the rest or is gone at 0; each abort has its condition. |
| `BookEffects.DeleteEffect` | include/order_book.hpp:129-144 | Deletion takes the order's whole quantity off the level of its price and side, and the order out of the book; each abort has its condition. |
| `BookEffects.ReplaceEffect` | include/order_book.hpp:99-126 | Replacement takes the old quantity off the old price and puts the new quantity at the new price of the same side, the other side untouched; the new id, unless another live order has it, gets the new quantity and price and the kept side; each abort has its condition. |
| `OrderBooks.OrderBook.constructor` | include/order_book.hpp:15-24 | A new book is the empty state. |
| `BookSides.RemoveFromSide` | include/order_book.hpp:62-126 | Quantity comes off the side the order is on, aborts included; the machine it follows is pinned to the two sides by `BookEffects`. |
| `BookSides.AddToSide` | include/order_book.hpp:62-126 | Quantity goes onto the side the order is on, which `BookEffects.AddEffect` says is the bids exactly for a bid. |
| `BookSides.MoveLevel` | include/order_book.hpp:62-126 | A replacement removes and then adds on one side, and returns the change of the addition unless that is empty. |
| `OrderBooks.OrderBook.BestBid` | include/order_book.hpp:26-29 | The best bid of the state. |
| `OrderBooks.OrderBook.BestAsk` | include/order_book.hpp:31-34 | The best ask of the state. |
| `OrderBooks.OrderBook.AddOrder` | include/order_book.hpp:37-52 | The in-place addition is the step of the state machine the theorems are about: same orders, same levels, same report, or the same abort with nothing changed. |
| `OrderBooks.OrderBook.CancelOrder` | include/order_book.hpp:55-74 | The in-place cancellation is the step of the state machine the theorems are about: same orders, same levels, same report, or the same abort with nothing changed. |
| `OrderBooks.OrderBook.ExecuteOrder` | include/order_book.hpp:77-96 | The in-place execution is the step of the state machine the theorems are about: same orders, same levels, same report, or the same abort with nothing changed. |
| `OrderBooks.OrderBook.ReplaceOrder` | include/order_book.hpp:99-126 | The in-place replacement is the step of the state machine the theorems are about: same orders, same levels, same report, or the same abort with nothing changed. |
| `OrderBooks.OrderBook.DeleteOrder` | include/order_book.hpp:129-144 | The in-place deletion is the step of the state machine the theorems are about: same orders, same levels, same report, or the same abort with nothing changed. |
| `SingleStratSpec.SameExactlyForDistinctIds` | include/single_strat_order_book.hpp:114-144 | A completed operation pushes what `OrderBook` returns and leaves the same levels; the orders are the same if and only if it does not replace an order under its own id, and then that order is the one missing. |
| `SingleStratSpec.OwnIdLosesOrder` | include/single_strat_order_book.hpp:114-144 | Where the promise ends: an order for 5 at 100 replaced under its own id by one for 7 is gone while the level offers 7, so orders and levels no longer agree. |
| `SingleStratSpec.SameAborts` | include/single_strat_order_book.hpp:64-149 | It aborts exactly when `OrderBook` does, for the same reason, as long as the queue has room. |
| `SingleStratSpec.TraceEquivalent` | include/single_strat_order_book.hpp:42-165 | For every run without such a replacement the pushed changes are the non-empty changes of `OrderBook` in order, and the final book is the same. |
| `SingleStratBooks.SingleStratOrderBook.constructor` | include/single_strat_order_book.hpp:21-28 | A new book is the empty state on its queue. |
| `SingleStratBooks.SingleStratOrderBook.Publish` | include/single_strat_order_book.hpp:57-60 | A non-empty change is appended to the queue; with the queue full the process aborts. |
| `SingleStratBooks.SingleStratOrderBook.AddOrder` | include/single_strat_order_book.hpp:42-61 | The in-place operation is the specified step of book and queue together, including the abort on a full queue. |
| `SingleStratBooks.SingleStratOrderBook.CancelOrder` | include/single_strat_order_book.hpp:64-86 | The in-place operation is the specified step of book and queue together, including the abort on a full queue. |
| `SingleStratBooks.SingleStratOrderBook.ExecuteOrder` | include/single_strat_order_book.hpp:89-111 | The in-place operation is the specified step of book and queue together, including the abort on a full queue. |
| `SingleStratBooks.SingleStratOrderBook.ReplaceOrder` | include/single_strat_order_book.hpp:114-144 | The in-place operation is the specified step of book and queue together, including the abort on a full queue. |
| `SingleStratBooks.SingleStratOrderBook.DeleteOrder` | include/single_strat_order_book.hpp:147-165 | The in-place operation is the specified step of book and queue together, including the abort on a full queue. |
| `SingleStratView.ObservePushed` | include/single_strat_order_book.hpp:57-60 | Not pushing the empty changes makes no difference to an observer. |
| `SingleStratView.PushKeepsView` | include/single_strat_order_book.hpp:114-144 | Hearing what one operation pushed keeps a true view true, even when the operation loses an order. |
| `SingleStratView.PrefixesAreTruthful` | include/single_strat_order_book.hpp:42-165 | For every `k`, the first `k` pushed changes give the bests at every moment at which exactly `k` had been pushed, and there is one. |
| `SingleStratView.StrategyPopsTop` | include/single_strat_order_book.hpp:42-165 | In every interleaving of book thread and strategy thread over the wrapping ring, the strategy holds the bests as of the last change it popped, and the present ones once it has popped all; also in runs that replace orders under their own id. |
| `ItchFields.LoadIsBigEndian` | include/itch_parser.hpp:82-110 | Or-ing shifted bytes as the code does is reading a big-endian number. |
| `ItchFields.BigEndianRoundTrip` | include/itch_parser.hpp:88-110 | Writing a number as big-endian bytes and reading it back gives the number. |
| `ItchFields.Load48Value` | include/itch_parser.hpp:112-116 | As written, the 48-bit load gives the high 32 bits right and takes the low 16 from the first two bytes. |
| `ItchFields.Seen48Exact` | include/itch_parser.hpp:112-116 | A 48-bit field survives decoding if and only if its low 16 bits equal its top 16 bits. |
| `ItchFields.Seen48Fails` | include/itch_parser.hpp:114 | The number 1 is decoded as 0. |
| `ItchFields.FieldRoundTrip` | include/itch_parser.hpp:118-146 | A field that was encoded at a position is loaded from it, timestamps as characterised above. |
| `ItchFields.EncodedAt` | include/itch_parser.hpp:67-77 | In an encoded message every field lies at the sum of the sizes before it, and fields do not overlap. |
| `ItchFields.FieldAtRoundTrip` | include/itch_parser.hpp:148-163 | Each field of an encoded message is loaded back from its computed offset. |
| `ItchFields.FieldsRoundTrip` | include/itch_parser.hpp:148-175 | Decoding an encoded message gives all its values, timestamps as characterised, whatever follows it in the buffer. |
| `ItchFields.DecodedExactlyWhen` | include/itch_parser.hpp:148-175 | Decoding inverts encoding if and only if every 48-bit field repeats its top 16 bits at the bottom. |
| `ItchFields.LoadedAllFit` | include/itch_parser.hpp:82-146 | Whatever the bytes, decoded values are in the range of their member types. |
| `ItchFields.LoadFieldsPrefix` | include/itch_parser.hpp:148-163 | Decoding depends only on the bytes of the layout. |
| `ItchMessages.OnlyTimestampIs48` | include/itch_parser.hpp:243-574 | In every handled layout the third member, the timestamp, and no other is a 48-bit field. |
| `ItchMessages.SeenSameOp` | include/itch_parser.hpp:440-574 | Decoding changes no member but the timestamp, and never the book operation or the locate. |
| `ItchBytes.MostSignificantFirst` | include/itch_parser.hpp:82-110 | A number on the wire has its most significant byte first. |
| `ItchBytes.SystemEventLayout` | include/itch_parser.hpp:243-248 | The members of a system event in order, the position of each and the size of the whole, as numbers. |
| `ItchBytes.StockDirectoryLayout` | include/itch_parser.hpp:270-288 | The members of a stock directory entry in order, the position of each and the size of the whole, as numbers. |
| `ItchBytes.AddOrderLayout` | include/itch_parser.hpp:451-460 | The members of an add message in order, the position of each and the size of the whole, as numbers. |
| `ItchBytes.AddOrderMpidLayout` | include/itch_parser.hpp:474-484 | The members of an add message with attribution in order, the position of each and the size of the whole, as numbers. |
| `ItchBytes.OrderExecutedLayout` | include/itch_parser.hpp:495-502 | The members of an execution in order, the position of each and the size of the whole, as numbers. |
| `ItchBytes.OrderExecutedPriceLayout` | include/itch_parser.hpp:515-524 | The members of an execution with price in order, the position of each and the size of the whole, as numbers. |
| `ItchBytes.OrderCancelLayout` | include/itch_parser.hpp:534-540 | The members of a cancellation in order, the position of each and the size of the whole, as numbers. |
| `ItchBytes.OrderDeleteLayout` | include/itch_parser.hpp:549-554 | The members of a deletion in order, the position of each and the size of the whole, as numbers. |
| `ItchBytes.OrderReplaceLayout` | include/itch_parser.hpp:566-574 | The members of a replacement in order, the position of each and the size of the whole, as numbers. |
| `ItchBytes.DispatchTable` | include/itch_parser.hpp:738-758 | For each of the 256 type bytes: handled, ignored or refused, how many bytes a handled type needs, and which exception a refusal is. |
| `ItchBytes.AddAsks` | include/handler.hpp:172-207 | An add message asks for an order with the id, side, shares and price read from the bytes at 10, 18, 19 and 31 behind the type, for the locate at 0. |
| `ItchBytes.ExecutedAsks` | include/handler.hpp:208-233 | An execution, with or without price, asks to execute the shares at byte 18 of the order at byte 10. |
| `ItchBytes.CancelAsks` | include/handler.hpp:234-246 | A cancellation asks to cancel the shares at byte 18 of the order at byte 10. |
| `ItchBytes.DeleteAsks` | include/handler.hpp:247-256 | A deletion asks to delete the order whose 64-bit number is at byte 10. |
| `ItchBytes.ReplaceAsks` | include/handler.hpp:257-270 | A replacement asks for the new id at byte 18, the shares at 26 and the price at 30 in place of the order at byte 10. |
| `ItchBytes.DirectoryAsks` | include/handler.hpp:158-170 | A directory entry lists the locate at byte 0 under the eight bytes from byte 10. |
| `ItchBytes.EventAsks` | include/handler.hpp:136-150 | A system event is handled by its code at byte 10. |
| `ItchBytes.OrderAsks` | include/handler.hpp:172-270 | Each of the seven order messages operates on the book of its own locate. |
| `ItchParser.ParseLoop` | include/itch_parser.hpp:764-783 | The pointer-advancing loop terminates on every buffer, empty frames included, and computes the frame-by-frame meaning the other results are about. |
| `ItchParser.ParseResumes` | include/itch_parser.hpp:767-782 | Parsing a buffer that grew is parsing its old part and then what was left over with the new bytes: a truncated tail is never dispatched. |
| `ItchParser.DispatchesExactlyWhen` | include/itch_parser.hpp:738-758 | A type byte is dispatched without an error if and only if it is below 128, one of the 22 types, and followed by enough bytes for its decoder. |
| `ItchParser.ConsumedExactlyWhen` | include/itch_parser.hpp:738-782 | Read off the length fields and type bytes: parsing returns normally if and only if every frame is acceptable, and has then used up the buffer if and only if that ends on a frame boundary and not with an empty frame. |
| `ItchParser.PiecewiseExactlyWhen` | include/itch_parser.hpp:767-782 | Parsing `a ++ b` is parsing `a` and then `b`, for all `b`, if and only if `a` by its own bytes has acceptable frames only, ends on a frame boundary, and does not end with an empty frame. |
| `ItchParser.EmptyFrameTakesNextByte` | include/itch_parser.hpp:768-781 | A frame of announced size 0 dispatches the first byte of the next frame as its type. |
| `ItchParser.EmptyFrameBreaksNext` | include/itch_parser.hpp:768-781 | A concrete buffer that parses alone and is rejected behind an empty frame. |
| `ItchParser.FrameParses` | include/itch_parser.hpp:764-783 | One well-formed frame is dispatched once, with the decoded message, and parsing goes on right behind it; the nine layouts are those of `ItchBytes`. |
| `ItchParser.FramesParse` | include/itch_parser.hpp:764-783 | For any sequence of well-formed frames the handler gets each handled message once and in order. |
| `ItchParser.TruncatedTailIsLeft` | include/itch_parser.hpp:767-771 | The same with an incomplete frame behind them, which is left undispatched. |
| `HandlerSpec.PadSymbol` | include/handler.hpp:152-156 | A configured symbol is cut or padded to exactly eight bytes. |
| `HandlerSpec.FirstConfigWins` | include/handler.hpp:81-83 | Of configured instruments with the same eight bytes the first one gets the queue. |
| `HandlerSpec.HandleIsLocal` | include/handler.hpp:158-270 | A message changes the book of its own locate only, and no queue once set. |
| `HandlerSpec.LocatesAreIsolated` | include/handler.hpp:158-270 | After any run each book is the fold of its own locate's messages from its first directory entry on, whatever was interleaved. |
| `HandlerSpec.QueuesAreFixed` | include/handler.hpp:158-170 | A locate keeps the queue of its first directory entry. |
| `HandlerSpec.AbortIsFinal` | include/handler.hpp:172-270 | An abort is the outcome of the whole run, whatever follows. |
| `HandlerTheorems.StopsExactlyWhen` | include/handler.hpp:136-143 | After any completed run the handler asks to stop if and only if some input was the system event with code 'C'. |
| `HandlerTheorems.RecordsExactlyWhen` | include/handler.hpp:145-149 | After any completed run prices are recorded if and only if some 'Q' event has not been followed by an 'M' event. |
| `HandlerTheorems.MaxOrdersIsLargest` | include/handler.hpp:172-206 | After any completed run `max_orders` is the largest number of live orders a book had right after an add message of its locate, 0 without one. |
| `HandlerTheorems.QueueOfFirstListing` | include/handler.hpp:158-170 | A locate is listed if and only if an entry of a configured symbol has named it, and its queue is the one configured for the first such symbol. |
| `HandlerTheorems.EveryQueueStops` | include/handler.hpp:136-150 | The event 'C', and no other, gives each queue one stop message for every listed locate that has it, shared queues included; no event touches books or queues. |
| `HandlerTheorems.UpdatesAreStamped` | include/handler.hpp:105-127 | Every update in a queue carries the counter value read before the message that pushed it. |
| `Handlers.Handler.constructor` | include/handler.hpp:76-84 | Nothing is listed at first, and the instrument table holds the first configuration of each symbol. |
| `Handlers.Handler.HandleBookOp` | include/handler.hpp:172-270 | With books as heap objects reached through the table, an operation is the step of the state machine: the listed book changes as specified, all others stay, and the change is pushed to the locate's queue. |
| `Handlers.Handler.HandleStockDirectory` | include/handler.hpp:158-170 | The first entry of a configured symbol gives the locate a book of its own, sharing no object with the others, and its queue; later entries change nothing. |
| `Handlers.Handler.HandleSystemEventMsg` | include/handler.hpp:136-150 | The object follows the state machine on a system event, flags and stop messages included; what the machine does is pinned by `HandlerTheorems`. |
| `Handlers.Handler.HandleMessage` | include/handler.hpp:136-270 | One decoded message through the object is one step of the state machine, whatever its type; what each type asks for is pinned byte by byte by `ItchBytes`. |
| `Handlers.RunAll` | include/handler.hpp:105-270 | A handler object given all inputs of a run leaves in its queues what the state machine says, or ends the process where it does. |
| `Pipeline.ParsedAreTyped` | include/itch_parser.hpp:148-180 | Whatever the bytes, every message that reaches the handler has its type's members, each in range. |
| `Pipeline.RunBytes` | include/itch_parser.hpp:764-783 | Parse loop and handler object together, on any bytes whatsoever, leave in the queues what the state machine says of the parsed messages. |
| `TopOfBook.StopsInLog` | include/handler.hpp:139-143 | A locate with a queue of its own gets exactly one stop message. |
| `TopOfBook.StopsPerQueue` | include/handler.hpp:139-143 | The walk over the table gives a queue as many stop messages as there are listed locates that share it. |
| `TopOfBook.EmittedIsAppended` | include/handler.hpp:111-127 | A message appends at most one update to a locate's queue, and only for that locate's messages. |
| `TopOfBook.LogsAreTruthful` | include/handler.hpp:111-127 | After any run, replaying all of a queue's updates gives the present best bid and ask of the one locate it serves. |
| `TopOfBook.MentionedSideIsKnown` | include/handler.hpp:111-127 | After one update of a side, what was known of that side before no longer matters. |
| `TopOfBook.EveryPushHasAMoment` | include/handler.hpp:111-127 | No push number is skipped: a message pushes at most one update. |
| `TopOfBook.LogsOnlyGrow` | include/handler.hpp:111-127 | What had been pushed for a locate at an earlier moment of a run is a prefix of what is pushed later. |
| `TopOfBook.PrefixesAreTruthful` | include/handler.hpp:111-127 | For every `k`, replaying the first `k` updates gives the bests as of push number `k`: the run has moments at which exactly `k` updates had been pushed, and at every one of them the book's bests are those. |
| `EndToEnd.DecodeEncode` | include/handler.hpp:16-39 | A strategy message survives its representation as words of a queue slot. |
| `EndToEnd.PoppedShows` | include/handler.hpp:111-127 | What a consumer of the ring reconstructs, from whatever start index, is the log up to its reader index, for each side it can know. |
| `EndToEnd.StrategySeesTopOfBook` | include/handler.hpp:111-127 | In every interleaving of pushes and word-by-word pops, after any number of pops a consumer holds the bests as of the last update it popped, and the present ones once it has popped all. A consumer from before the first push holds both sides; a later one each side of which it has popped an update. |
| `EndToEnd.HandlerIgnoresTimestamps` | include/handler.hpp:111-127 | The decoder's timestamp defect does not reach the handler's state. |
| `EndToEnd.MessagesOfEvents` | include/itch_parser.hpp:764-783 | The handler gets exactly the handled messages that were sent, timestamps as characterised. |
| `EndToEnd.WireToStrategy` | include/handler.hpp:105-270 | From bytes to strategy: parsing any well-formed frames and handling them builds for each locate the book its own messages describe, and a consumer of a queue that serves one locate holds that book's bests as of the last update it popped. |
| `BookTheorems.AddFreshExact` | include/order_book.hpp:37-48 | Adding a new id keeps the agreement if and only if its quantity is positive and there is room. |
| `BookTheorems.AddDuplicateExact` | include/order_book.hpp:42-48 | Adding under a live id keeps the agreement if and only if nothing is added to a level that is there. |

## Left out

- `src/dpdk_context.cpp`, `include/dpdk_context.hpp`, `include/ingestor.hpp`, `src/main.cpp`: network polling, header skipping, thread pinning and CSV output are foreign calls and I/O.
- `include/benchmarks/`, `src/benchmarks/`, `analysis/`: timing, histograms and plots.
- Weak memory: both queues are modelled with sequentially consistent steps. The data race the code declares in `pop` is modelled as word-by-word copying.
- The version and writer counters of the broadcast queue are unbounded numbers; their wrap after 2^63 laps or 2^64 pushes is not modelled. The indices of the single-consumer ring do wrap.
- The ring sizes and word counts of both queues are parameters; alignment, padding and slot sizes in bytes do not appear. The moving `try_push` differs from the copying one only in what it does to its argument.
- Internals of `absl::flat_hash_map` and `std::priority_queue`: a map and a multiset. `std::lower_bound` is written out.
- The mixing constants of `PriceToQtyMap::hash`: the hash function is a parameter, and all results hold for every hash function. The value that a probe for key 0 finds in a free slot is not tracked.
- What an access beyond the array of `ArrayLevelsV2` does to the process: it is an outcome of its own, with the state left as it was.
- `best` of an empty side in `ArrayLevel`, `ArrayLevelBSearch` and `VectorLevel`: undefined in the code, excluded by a precondition.
- HybridVectorMap.Best: its brace initialisation narrows a 64-bit quantity to 32 bits; the model cuts it off where a compiler may refuse it.
- `old_order` in `SingleStartOrderBook::replace_order` is a reference that an insertion into the hash map can invalidate; it is treated as a value.
- The queues in the class `Handler` are identified by value, with what was pushed to each kept as a log; the broadcast queue itself is modelled on its own and joined to the log in `EndToEnd`. The vector that owns the books is not a separate field.
- handle_before: the time stamp counter is an input of each message.
- The thirteen message types the handler ignores: their frames are parsed over, their layouts are not listed. The typed members of a message are a list of values in layout order.
- Enumerations from message characters: a side other than bid counts as ask, as in the code, and the character itself is not kept.
