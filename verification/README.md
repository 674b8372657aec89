# A verified model of the market data book

The repository receives a multicast ITCH 5.0 feed, cuts it into messages, writes each
message to a checksummed log, passes the supported ones through a single-producer
single-consumer queue to a limit order book, and after a crash rebuilds the book from the
log. An OUCH client sends orders the other way. This project models that path in Dafny and
proves what it is for: the fast book is the obvious book, the recovered book is the live
book, and nothing is lost, duplicated or reordered on the way.

`dafny verify dfyconfig.toml` checks everything.

## How the model is built

* **The book** has three layers. `LimitOrderBook` is the class: pool array, two arrays of
  price levels, hash table, two bitsets, free-list head, updated in place statement by
  statement. `BookLinks` says when those arrays represent a `ListBook`, in which every
  price has a list of nodes and the free nodes form a list. `ListBook` is refined further,
  to `SimpleBook`: orders by id and arrival-ordered ids per price, the book that the
  differential test compares against. Each class method is proved against the list
  operation, each list operation against the simple one, and `BookRuns` proves what holds
  over every run.
* **Re-used ids** are kept as the code handles them. Adding an id that already rests
  overwrites the table entry and orphans the older node. The structural results hold for
  such runs too. The refinement to the simple book needs ids that do not rest when they are
  added. `IdReuse` proves that condition exact: after an accepted add, all continuations
  with fresh ids stay runs of the simple book if and only if the added id was fresh.
* **The hash table** (`OrderMap`) is proved to be a finite map through `find`, `operator[]`
  and `erase`. `insert` called on its own is not: it duplicates a key that lies behind a
  tombstone. `InsertSoundWhen` gives the exact condition.
* **The log** (`Wal`, `ItchParser`) is a byte array written by the same stores as in the
  code, so a message of 48 or 50 bytes overruns the 44-byte slot of its frame exactly as it
  does there: the checksum overwrites four bytes, and the last two bytes of a 50-byte
  message land in the next frame. The replay of a log is right for all lengths all the
  same. Only the torn-write flag can be wrong, and `CleanLogReplays` says precisely when.
* **Checksums** (`Crc32c`) are CRC32C, register starting at zero, fed bit by bit. `Gf2`
  defines division by the generator of section 12.1 of RFC 3720 on coefficient sequences,
  without registers, and the checksum is proved to be its remainder. That any change within
  32 consecutive bits is seen follows from linearity, with no case analysis over positions.
* **Concurrency** is modelled by steps. `SpscQueue` splits `push` and `pop` into single
  loads, slot accesses and index stores, and lets every load of the other side's index
  return any value between the last one seen and the current one. `RxRing` interleaves the
  packet simulation with the poller. The theorems quantify over all schedules.
* **`Pipeline`** composes the parts: packet file in, live book and recovered book out, over
  all schedules of the ring and of the queue.

`Bits`, `Bytes` and `Collections` hold the arithmetic and sequence facts used throughout.
Machine words are natural numbers with an explicit bound; wrap-around, masks, shifts and
byte swaps are written out.

In one place the code and the protocol it implements differ, and the model follows the
code: an 'X' message removes the whole order, where section 1.4.3 of the ITCH 5.0
specification describes a partial cancel.

## Model

| member | source | states |
|---|---|---|
| `Pipeline.RunSystem` | src/network/MulticastReceiver.h:201-219 | from the packet file on, under every schedule of the ring and every schedule of the queue in which no push fails: the book rebuilt from the log equals the live book, error and report included, and is that of the packets received; of the whole file once the ring is at rest |
| `Pipeline.RunAndRecover` | src/recovery/RecoveryEngine.cpp:33-76 | the same from the received packets on: parser, log, queue, live class book and recovered class book |
| `Pipeline.LiveEqualsRecovered` | src/main.cpp:113-142 | if every push of the parser's orders returned true and the queue has drained, then under every schedule the consumer popped exactly the decoded messages, and its outcome is that of the replayed log, from any book |
| `Pipeline.CrashKeepsPrefix` | src/recovery/RecoveryEngine.cpp:33-76 | a log cut off after k frames rebuilds the live book as it was after the first k messages |
| `Pipeline.QuoteLive` | tests/test_limit_order_book.cpp:63-71 | for every run with fresh ids, best bid and best offer are those of the reference book, or size_t(-1), and an execution is refused exactly where the reference refuses it |
| `Pipeline.Consume` | src/main.cpp:113-142 | the consumer loop applies the orders in sequence up to the first that throws |
| `Pipeline.ParseAll` | src/network/MulticastReceiver.h:201-219 | parsing block after block sees all whole messages of all blocks in order |
| `Pipeline.RunLive` | src/main.cpp:113-142 | the consumer on a new book ends in the outcome of the list book |
| `Pipeline.Recover` | src/recovery/RecoveryEngine.cpp:33-76 | recovery onto a new book ends in the outcome of the orders in the frames before the first bad one, with the matching report |
| `Pipeline.RecoverLog` | src/recovery/RecoveryEngine.cpp:72-73 | on a file that begins with the log of some messages, count and last number are those of the messages, or of those before the message whose order threw |
| `Pipeline.RecoverDamaged` | tests/test_crash_recovery.cpp:31-50 | with a change within 32 bits of frame k the recovered book is the live book after k messages, and the report has count k, last number k-1, and torn iff the marker byte survived |
| `Pipeline.RecoverCutOff` | src/recovery/RecoveryEngine.cpp:33-76 | with the log cut off after k frames the recovered class book is the live book after k messages, reported as k and not torn |
| `ListBook.AddLands` | src/book/LimitOrderBook.cpp:32-48 | in terms of the message's bytes: prices from 100000 on and a full pool drop an add; indicator 'B' appends the new node to the bids at its price, every other byte to the asks, and the other side is untouched |
| `ListBook.AddKeeps` | src/book/LimitOrderBook.cpp:94-122 | an add, with any id, keeps free list and price lists a partition of the pool and every live id pointing at a node that carries it |
| `ListBook.ReleaseKeeps` | src/book/LimitOrderBook.cpp:139-171 | removing a node keeps the same, and keeps ids unique if they were |
| `ListBook.ExecuteKeeps` | src/book/LimitOrderBook.cpp:69-92 | an execution keeps the same whether partial, complete, refused or for an unknown id |
| `ListBook.StepKeeps` | src/book/LimitOrderBook.cpp:32-92 | every order keeps the book well formed and the pool size |
| `ListBook.InitOk` | src/book/LimitOrderBook.cpp:5-30 | the new book is well formed |
| `BookRuns.EveryRunPartitionsPool` | src/book/LimitOrderBook.cpp:32-171 | after any run, re-used ids included, each pool node is free or rests in exactly one list, and free plus resting is max_orders |
| `BookRuns.PoolConserved` | src/book/LimitOrderBook.cpp:139-171 | free count plus resting count is the pool size in every partitioned state |
| `BookRuns.LiveInjective` | src/book/LimitOrderBook.cpp:110-110 | the map from live ids to nodes is injective into the resting nodes; with unique ids it is onto them |
| `BookRuns.TableSufficesIff` | src/book/LimitOrderBook.h:53-53 | over all runs an add that finds a free node finds room in the table, if and only if the table is as large as the pool |
| `BookRuns.RoomForId` | src/utils/StaticOrderMap.h:84-96 | if a node is free there are fewer live ids than nodes, so the table cannot be full |
| `BookRuns.StepConserves` | src/book/LimitOrderBook.cpp:32-92 | one order: resting shares after, plus executed, plus cancelled, equal resting before plus added |
| `BookRuns.RunConservesShares` | src/book/LimitOrderBook.cpp:32-92 | the same over every run, rejected adds and refused executions included |
| `BookRuns.RunKeeps` | src/book/LimitOrderBook.cpp:32-92 | every run keeps the book well formed |
| `BookRuns.DispatchSplit` | src/main.cpp:113-142 | a run over two batches is the second batch run from where the first ended, and nothing after an error |
| `BookRuns.TickMeansResting` | src/book/LimitOrderBook.cpp:113-121 | a price has a non-empty list exactly when some node rests at it |
| `SimpleBook.AddRefines` | src/book/LimitOrderBook.cpp:32-48 | an add with a fresh id is the reference add; with a bad price or a full pool both do nothing |
| `SimpleBook.ReleaseRefines` | src/book/LimitOrderBook.cpp:50-67 | unlinking a node removes exactly its id from the reference book and keeps the order of the others |
| `SimpleBook.ExecuteRefines` | src/book/LimitOrderBook.cpp:69-92 | executions agree in all four cases, the refusal included |
| `SimpleBook.StepRefines` | src/book/LimitOrderBook.cpp:32-92 | every step with a fresh id is a step of the reference book with the same result |
| `SimpleBook.RunRefines` | tests/test_limit_order_book.cpp:19-81 | every run with fresh ids is a run of the reference book |
| `SimpleBook.RunFromEmpty` | tests/test_limit_order_book.cpp:19-81 | the same from the constructor, for every pool size |
| `SimpleBook.DispatchRefines` | src/main.cpp:113-142 | the same for runs that end at the first refused execution |
| `SimpleBook.DispatchFromEmpty` | tests/test_limit_order_book.cpp:63-71 | from the constructor, and the prices with a list are the keys of the reference book's maps |
| `SimpleBook.FreshIdIsNeeded` | src/book/LimitOrderBook.cpp:110-110 | an accepted add keeps ids unique if and only if its id does not already rest |
| `SimpleBook.CancelAfterReuse` | src/book/LimitOrderBook.cpp:50-67 | after an accepted re-add of a resting id and its cancel, book and reference agree if and only if the re-add was not at the side and price where the id rested |
| `ListBook.CancelUndoesAdd` | src/book/LimitOrderBook.cpp:50-67 | a cancel takes back the add before it exactly: lists, pool and free list as before, and only the id forgotten |
| `IdReuse.FreshIdIsExact` | src/book/LimitOrderBook.cpp:107-110 | after an accepted add every continuation with fresh ids agrees with the reference book if and only if the added id did not already rest |
| `IdReuse.OrphanDiverges` | src/book/LimitOrderBook.cpp:37-40 | once an orphan rests, some run of adds with fresh ids fills the pool early and differs from the reference |
| `IdReuse.ReuseLeavesOrphan` | src/book/LimitOrderBook.cpp:94-110 | an accepted add of a resting id always leaves an orphan |
| `IdReuse.ReuseExample` | src/book/LimitOrderBook.cpp:94-110 | the concrete case: two adds of id 7 and a cancel on a pool of two |
| `BookLinks.AppendLinks` | src/book/LimitOrderBook.cpp:124-137 | the stores of an append turn a doubly linked list for q into one for q + [n], and change no other node's links |
| `BookLinks.UnlinkLinks` | src/book/LimitOrderBook.cpp:142-160 | the stores of an unlink give the list without that node at head, middle or tail, and change no other node's links |
| `BookLinks.AddRepresents` | src/book/LimitOrderBook.cpp:94-122 | the arrays after an add represent the list book after the add: all levels, free list and contents |
| `BookLinks.ReleaseRepresents` | src/book/LimitOrderBook.cpp:139-171 | the arrays after a release represent the list book after the release |
| `BookLinks.ReduceRepresents` | src/book/LimitOrderBook.cpp:84-84 | reducing shares in the pool is reducing them in the list book |
| `LimitOrderBook.TagRoundTrip` | src/book/LimitOrderBook.cpp:57-59 | side and index are recovered from the tagged index by the two masks |
| `LimitOrderBook.FindPlan` | src/book/LimitOrderBook.cpp:51-59 | the table entry of a live id decodes to a node with that id resting on that side |
| `LimitOrderBook.MakeBook` | src/book/LimitOrderBook.cpp:5-30 | no book exactly when max_orders is 0 |
| `LimitOrderBook.NewPool` | src/book/LimitOrderBook.cpp:20-23 | the constructor's loop threads all nodes in order |
| `LimitOrderBook.InitRepresented` | src/book/LimitOrderBook.cpp:20-29 | the threaded pool with null levels represents the empty book |
| `LimitOrderBook.LimitOrderBook.constructor` | src/book/LimitOrderBook.cpp:5-30 | a valid empty book with all nodes free |
| `LimitOrderBook.LimitOrderBook.AddOrder` | src/book/LimitOrderBook.cpp:32-48 | keeps the object valid, never throws, does what the list book does, and the new node rests as a buy exactly when the indicator byte is 0x42 |
| `LimitOrderBook.LimitOrderBook.AddOrderImpl` | src/book/LimitOrderBook.cpp:94-122 | keeps pool, levels, table and bitset in step, and `operator[]` never throws |
| `LimitOrderBook.LimitOrderBook.AddUpdatePriceLevel` | src/book/LimitOrderBook.cpp:124-137 | the four conditional stores amount to an append |
| `LimitOrderBook.LimitOrderBook.CancelOrder` | src/book/LimitOrderBook.cpp:50-67 | keeps the object valid and does what the list book does |
| `LimitOrderBook.LimitOrderBook.ExecuteOrder` | src/book/LimitOrderBook.cpp:69-92 | the same, and throws exactly when the list book refuses, with nothing changed |
| `LimitOrderBook.LimitOrderBook.ReleaseOrderToPool` | src/book/LimitOrderBook.cpp:139-171 | unlinks, clears the tick if the level is empty, erases the id and puts the node at the head of the free list |
| `LimitOrderBook.LimitOrderBook.ExecuteUpdatePriceLevel` | src/book/LimitOrderBook.cpp:173-182 | head and tail move past the removed node and no other level changes |
| `LimitOrderBook.LimitOrderBook.FindOrder` | src/book/LimitOrderBook.cpp:50-67 | finds exactly the live ids, with the right node and side |
| `LimitOrderBook.LimitOrderBook.Apply` | src/main.cpp:107-111 | the dispatch table does what the list book does for all three order types |
| `LimitOrderBook.LimitOrderBook.GetBestBid` | src/book/LimitOrderBook.h:45-45 | the highest price with a resting buy, or size_t(-1) |
| `LimitOrderBook.LimitOrderBook.GetBestOffer` | src/book/LimitOrderBook.h:46-46 | the lowest price with a resting sell, or size_t(-1) |
| `LimitOrderBook.LimitOrderBook.BucketsDecode` | src/book/LimitOrderBook.cpp:57-61 | in every valid state each occupied bucket's tag decodes to a resting node with that id on that side |
| `LimitOrderBook.LimitOrderBook.BitHeadTailAgree` | src/book/LimitOrderBook.cpp:150-165 | in every valid state a tick bit is set iff head is non-null iff tail is non-null |
| `OrderMap.WriteKeeps` | src/utils/StaticOrderMap.h:142-148 | writing the first open bucket, a tombstone included, keeps every key reachable and adds one entry |
| `OrderMap.EraseKeeps` | src/utils/StaticOrderMap.h:152-165 | a tombstone removes one entry and keeps all others reachable |
| `OrderMap.FullWhenAllOccupied` | src/utils/StaticOrderMap.h:149-149 | the entries number the capacity exactly when every bucket is occupied |
| `OrderMap.ProbeReaches` | src/utils/StaticOrderMap.h:102-122 | a probe that has not met a present key has buckets left and stands on a non-empty one |
| `OrderMap.InsertSoundWhen` | src/utils/StaticOrderMap.h:139-148 | `insert` of a present key leaves a map if and only if no tombstone precedes that key on its probe path |
| `OrderMap.InsertDuplicates` | src/utils/StaticOrderMap.h:139-148 | the concrete case, from an empty table of four: insert 0, insert 4, erase 0, insert 4 leaves key 4 twice |
| `OrderMap.OpenBucketOfLiveKey` | src/utils/StaticOrderMap.h:128-137 | the insert loop stops at the key itself if and only if there is no such tombstone |
| `OrderMap.StaticOrderMap.constructor` | src/utils/StaticOrderMap.h:39-52 | the empty map |
| `OrderMap.StaticOrderMap.Find` | src/utils/StaticOrderMap.h:102-122 | found exactly when the key is in the map, at its bucket; the probe ends |
| `OrderMap.StaticOrderMap.OpenBucket` | src/utils/StaticOrderMap.h:124-137 | the first bucket on the path that is not occupied by another key; none exactly when all are |
| `OrderMap.StaticOrderMap.Insert` | src/utils/StaticOrderMap.h:124-150 | fails exactly when the key is absent and the map full; otherwise writes one bucket, which is a map update under the condition above |
| `OrderMap.StaticOrderMap.Subscript` | src/utils/StaticOrderMap.h:84-96 | throws exactly when the key is absent and the map full; a new key starts at 0; no tombstone condition |
| `OrderMap.StaticOrderMap.Assign` | src/book/LimitOrderBook.cpp:110-110 | assignment through `operator[]` is map update |
| `OrderMap.StaticOrderMap.Erase` | src/utils/StaticOrderMap.h:160-165 | map removal, absent keys included |
| `OrderMap.StaticOrderMap.EraseAt` | src/utils/StaticOrderMap.h:152-158 | throws exactly outside the table; otherwise removes the entry of that bucket, if it holds one |
| `Bitset.Clz` | src/utils/HierarchicalBitset.h:31-33 | the least position set in a non-zero word |
| `Bitset.Ctz` | src/utils/HierarchicalBitset.h:41-43 | 63 less the greatest position set |
| `Bitset.LevelsSet` | src/utils/HierarchicalBitset.h:48-56 | setting the three bits adds one tick and keeps every summary bit true to its word |
| `Bitset.LevelsClear` | src/utils/HierarchicalBitset.h:58-70 | the conditional clears remove one tick and keep every summary bit true to its word |
| `Bitset.DescendFirst` | src/utils/HierarchicalBitset.h:31-33 | the first word of one level leads to the first of the level below |
| `Bitset.DescendLast` | src/utils/HierarchicalBitset.h:41-43 | the last word of one level leads to the last of the level below |
| `Bitset.HierarchicalBitset.constructor` | src/utils/HierarchicalBitset.h:23-26 | the empty set, for every MAX_TICKS up to 64^3 |
| `Bitset.HierarchicalBitset.SetPriceLevel` | src/utils/HierarchicalBitset.h:48-56 | adds the tick to the set |
| `Bitset.HierarchicalBitset.ClearPriceLevel` | src/utils/HierarchicalBitset.h:58-70 | removes the tick from the set |
| `Bitset.HierarchicalBitset.GetBestOffer` | src/utils/HierarchicalBitset.h:28-36 | the minimum of the set, or size_t(-1) when it is empty |
| `Bitset.HierarchicalBitset.GetBestBid` | src/utils/HierarchicalBitset.h:38-46 | the maximum of the set, or size_t(-1) when it is empty |
| `Itch.TableIsFieldWidths` | src/protocol/ItchParser.h:40-57 | for every byte the length table is the sum of the field widths of that message type in ITCH 5.0, or 0 |
| `Itch.AddOnWire` | src/protocol/ItchParser.h:126-142 | a message of type 0x41 is one add whose fields are the big-endian slices at the offsets of section 1.3.1 of ITCH 5.0 |
| `Itch.ExecuteOnWire` | src/protocol/ItchParser.h:144-161 | a message of type 0x45 is one execution with the fields of section 1.4.1 |
| `Itch.CancelOnWire` | src/protocol/ItchParser.h:163-178 | a message of type 0x58 is one cancel with the fields of section 1.4.3 |
| `Itch.DecodesByType` | src/protocol/ItchParser.h:84-122 | each of the three types gives exactly one order of its kind, and every other byte none |
| `Itch.DecodeInvertsEncode` | src/protocol/ItchParser.h:126-199 | decoding the big-endian packed layouts gives back every field carried over, for all values, whatever bytes follow |
| `Itch.FieldTimestamp` | src/protocol/ItchParser.h:185-187 | swap and shift of six loaded bytes give the 48-bit timestamp |
| `Itch.DecodeDependsOnMessage` | src/protocol/ItchParser.h:102-121 | decoding reads nothing past the message, so the 44-byte log slot decodes as the received bytes do |
| `Itch.ParseEndsIffKnown` | src/protocol/ItchParser.h:72-124 | the parse loop ends if and only if every boundary it reaches carries a type of non-zero length |
| `Itch.UnknownTypeLoops` | src/protocol/ItchParser.h:78-99 | the concrete case: a zero byte is parsed for ever |
| `Itch.CutIsLongestPrefix` | src/protocol/ItchParser.h:70-124 | the cut is made of whole messages, is a prefix of the block and leaves less than one message |
| `Itch.CutInvertsJoin` | src/protocol/ItchParser.h:70-124 | cutting a block of whole messages and an incomplete one gives exactly those messages |
| `ItchParser.MmapLogger.constructor` | src/recovery/MmapLogger.cpp:6-38 | a file of FILE_SIZE zeros, next frame at its start |
| `ItchParser.MmapLogger.ReserveFrame` | src/recovery/MmapLogger.cpp:64-73 | fails exactly when a frame no longer fits; otherwise frames are consecutive and inside the file |
| `ItchParser.ItchParser.constructor` | src/protocol/ItchParser.h:64-68 | an empty log, sequence number 0 and nothing offered |
| `ItchParser.ItchParser.LogPayload` | src/protocol/ItchParser.h:201-216 | the stores into the mapped file append one frame to the log; a full log skips the message |
| `ItchParser.ItchParser.ParseMessage` | src/protocol/ItchParser.h:84-122 | logs the message and offers exactly its decoding, which `DecodesByType` gives in terms of the type byte |
| `ItchParser.ItchParser.ParseBlock` | src/protocol/ItchParser.h:70-124 | ends, and has logged and offered exactly the whole messages of the block in order |
| `Wal.LogStep` | src/protocol/ItchParser.h:208-215 | writing frame n over the file of n messages gives the file of n + 1 messages, overrunning messages included |
| `Wal.StoreOverBlank` | src/utils/WalFrame.h:11-19 | the seven stores leave the packed frame, followed by what the payload spilled |
| `Crc32c.ChecksumIsRemainder` | src/utils/crc32.h:8-24 | for all data the checksum is the remainder of the 480 message bits times x^32 on division by the generator of section 12.1 of RFC 3720, given by its exponents |
| `Gf2.DivisionIdentity` | src/utils/crc32.h:12-21 | that long division is a division: every polynomial is a multiple of the generator plus the remainder |
| `Crc32c.CalculateIsBitSerial` | src/utils/crc32.h:8-24 | seven 64-bit steps and one 32-bit step are one bit-serial pass over the first 60 bytes |
| `Crc32c.FeedAllLinear` | src/utils/crc32.h:12-21 | the register is linear in start value and data |
| `Crc32c.SameRegister` | src/utils/crc32.h:12-21 | every step is injective in the register |
| `Crc32c.SumMatches` | src/utils/crc32.h:21-21 | the last word step gives zero exactly on the register itself |
| `Crc32c.IntactIsZeroRegister` | src/recovery/RecoveryEngine.cpp:38-39 | a frame passes the check if and only if all its 64 bytes feed to zero |
| `Crc32c.BurstDetected` | src/recovery/RecoveryEngine.cpp:38-43 | two frames that pass and differ only within 32 consecutive bits are equal, at any alignment, checksum field included |
| `Recovery.ApplyFrame` | src/recovery/RecoveryEngine.cpp:45-70 | a frame does to the book what its decoded order does; other types do nothing |
| `Recovery.RunRecovery` | src/recovery/RecoveryEngine.cpp:33-76 | applies exactly the longest run of good frames and reports count, last number and torn flag; an order that throws ends it with the frames before counted |
| `LogRecovery.FrameIsGood` | src/protocol/ItchParser.h:208-215 | every frame written carries the marker and passes the check |
| `LogRecovery.FrameDecodes` | src/recovery/RecoveryEngine.cpp:45-70 | recovery decodes from the frame what the parser decoded from the message |
| `LogRecovery.FrameLayout` | src/utils/WalFrame.h:11-19 | a frame byte by byte: 0xAA, the type 0x41, 0x45, 0x58 or otherwise 0x2D, channel 1, number, time stamp, 44 payload bytes, checksum |
| `LogRecovery.LoggedFrames` | src/protocol/ItchParser.h:208-215 | the file of 2^30 bytes takes 2^24 messages, and frame k of it has that layout, with number k untruncated |
| `LogRecovery.FrameBehindLog` | src/utils/WalFrame.h:12-17 | behind the last frame lie zeros but for at most two spilled bytes |
| `LogRecovery.RestOfFileIsZero` | src/recovery/MmapLogger.cpp:13-18 | all frames further on are zero |
| `LogRecovery.BlankIsNotGood` | src/recovery/RecoveryEngine.cpp:34-43 | such a frame is never replayed, whatever the two bytes are |
| `LogRecovery.CleanLogReplays` | src/recovery/RecoveryEngine.cpp:33-76 | a clean log replays exactly all its messages and reports their count and last number; torn is reported iff the last message is 50 bytes with 0xAA at offset 48 |
| `LogRecovery.FalseTornFlag` | src/recovery/RecoveryEngine.cpp:38-43 | the concrete case: one 'I' message ending in two marker bytes is replayed in full and reported torn |
| `LogRecovery.TruncatedLogReplays` | src/recovery/RecoveryEngine.cpp:33-76 | a log cut after k frames replays and reports exactly k messages, not torn |
| `LogRecovery.CorruptedFrameStopsReplay` | tests/test_crash_recovery.cpp:31-50 | a change within 32 bits of frame k replays and reports exactly frames 0 to k-1, whatever follows, and torn iff the marker byte survived |
| `SpscQueue.StepKeeps` | src/utils/spscqueue.h:12-58 | every load, slot access and store keeps the queue invariant, with stale loads |
| `SpscQueue.EveryScheduleIsFifo` | src/utils/spscqueue.h:12-58 | over every schedule popped is a prefix of pushed, at most Size-1 are in flight, the producer never writes a slot that holds an unread item, and the two never access one slot at once |
| `SpscQueue.PushedIsOffered` | src/utils/spscqueue.h:28-42 | while every push returns true, the items pushed or in hand are those offered, in order |
| `SpscQueue.DrainedDeliversAll` | src/utils/spscqueue.h:12-58 | over every schedule in which no push fails, a drained queue has delivered exactly the items offered |
| `SpscQueue.FailsExactlyWhen` | src/utils/spscqueue.h:18-20 | over all steps, a push ends without publishing exactly at its second comparison with a view in which the ring is full, and a pop ends without an item exactly at its second comparison with a view in which nothing is left |
| `SpscQueue.PopDelivers` | src/utils/spscqueue.h:44-58 | from every state with an item left, a pop whose load is up to date ends within six steps and returns the next item |
| `SpscQueue.PushSucceeds` | src/utils/spscqueue.h:28-42 | from every state with room, a push whose load is up to date ends within six steps and publishes its item |
| `SpscQueue.EveryItemIsPopped` | src/utils/spscqueue.h:44-58 | from every state with an idle consumer, as many pops as there are items deliver all of them |
| `SpscQueue.SlotNext` | src/utils/spscqueue.h:14-14 | masking with Size-1 is the cyclic successor, for a power of two |
| `RxRing.SplitInvertsPrefixing` | src/network/MulticastReceiver.h:306-312 | splitting a length-prefixed file gives back its messages, and drops an incomplete tail |
| `RxRing.KernelKeeps` | src/network/MulticastReceiver.h:305-331 | every step of the simulated kernel keeps frame ownership and contents |
| `RxRing.PollerKeeps` | src/network/MulticastReceiver.h:201-219 | every step of the poller keeps them too |
| `RxRing.UserRange` | src/network/MulticastReceiver.h:206-216 | the frames marked USER are exactly the cyclic range from the poller's index to the kernel's |
| `RxRing.EveryScheduleDelivers` | src/network/MulticastReceiver.h:201-219 | over every schedule what was delivered is a prefix of the file's messages, and all of them once both sides have run dry |
| `RxRing.StepsFall` | src/network/MulticastReceiver.h:305-331 | every step of either thread that changes anything lowers a measure of what is left to do |
| `RxRing.SomeoneMoves` | src/network/MulticastReceiver.h:317-328 | until both are at rest one of the two threads can move: no deadlock |
| `RxRing.ComesToRest` | src/network/MulticastReceiver.h:201-219 | from every reachable state a schedule leads to rest, with the whole file delivered |
| `OuchClient.SendReplies` | src/network/OuchClient.h:62-87 | true exactly when the whole order went out behind the wire's bytes; false without a pending write exactly when the rest, not empty, is pending; a refusal and an exception change nothing |
| `OuchClient.ResumeReplies` | src/network/OuchClient.h:92-126 | a connection is finished exactly without an error, a pending write exactly when all its bytes went out; the reply says which |
| `OuchClient.ConnectReplies` | src/network/OuchClient.h:53-56 | connecting changes the state and nothing else |
| `OuchClient.SendKeeps` | src/network/OuchClient.h:62-87 | `send_order` keeps the byte stream in order for every result of `send` |
| `OuchClient.ResumeKeeps` | src/network/OuchClient.h:92-126 | `handle_write` keeps it in every state, errors included |
| `OuchClient.WirePlusPending` | src/network/OuchClient.h:78-84 | bytes on the wire plus pending bytes are the accepted orders end to end |
| `OuchClient.ReconnectKeepsIff` | src/network/OuchClient.h:53-56 | connecting keeps it if and only if no write is pending |
| `OuchClient.ReconnectLosesBytes` | src/network/OuchClient.h:53-56 | the concrete case: a reconnect after half an order forgets the other half |
| `OuchClient.OrdersNeverInterleave` | src/network/OuchClient.h:62-126 | over every run without a reconnect during a pending write, orders reach the wire whole and in sequence |
| `OuchClient.OuchClient.constructor` | src/network/OuchClient.h:42-46 | a disconnected client with nothing pending |
| `OuchClient.OuchClient.ConnectToServer` | src/network/OuchClient.h:53-56 | the state becomes Connecting and nothing else changes |
| `OuchClient.OuchClient.SendOrder` | src/network/OuchClient.h:62-87 | refuses while a write is pending; otherwise leaves the unsent suffix in the pending buffer |
| `OuchClient.OuchClient.HandleWrite` | src/network/OuchClient.h:92-126 | finishes a connection or sends more of the pending suffix, with the source's reply in each case |
| `Bpf.FilterIsUdpToPort` | src/network/MulticastReceiver.h:353-370 | for every packet the program ends and accepts exactly first or only fragments of IPv4 UDP, any header length, and IPv6 UDP, to port 58362, long enough to hold the port |

## Left out

- mmap, madvise, fallocate, msync, file handles and page rounding: operating system calls; pool, table, log and ring are arrays.
- LimitOrderBook.LimitOrderBook.constructor: requires at most 2^22 orders; the source accepts more, but the table then fills before the pool on some run (`TableSufficesIff`) and `operator[]` throws in the middle of an add, which leaves a node in no list.
- LimitOrderBook.MakeBook: the same bound, for the same reason.
- Feeding a type byte of 0x80 or more: the table is indexed with a plain `char`, whose sign depends on the platform; the model indexes it with an unsigned byte.
- ItchParser.ItchParser.ParseBlock: requires that message boundaries carry known types, because otherwise the loop does not end (`ParseEndsIffKnown`).
- Recovery.RunRecovery: requires that some frame inside the file fails the marker or checksum test, because the loop has no end-of-file test.
- ItchParser.ItchParser.LogPayload: bytes that the last frame of a completely full log would write past the end of the file are dropped.
- Pipeline.RunAndRecover: requires fewer messages than the file has frames and no failed push, because a full log skips messages and the parser ignores the result of a push.
- Pipeline.RunSystem: the schedules of ring and queue are independent; that a push cannot come before its packet was delivered, which only removes schedules, is not modelled.
- RxRing.EveryScheduleDelivers: requires messages of at most 2016 bytes, the room of a ring frame, which the simulation does not test.
- SpscQueue.EveryScheduleIsFifo: the memory model is monotone stale reads of the other side's index with slot accesses ordered by the release stores; other reorderings are not modelled.
- OuchClient.OrdersNeverInterleave: an order's bytes stay unchanged while a write of them is pending; the source keeps only the address inside the caller's packet.
- The frame's timestamp: any function of the frame number.
- Torn writes of more than 32 bits inside one frame: a 32-bit checksum cannot detect all of them.
- `poll()` and its header offsets, socket setup, EpollReactor, TCPSocket: they depend on kernel layout or are foreign calls; the simulated path has the same handover.
- MagicBuffer: not used for data on the main path.
- Moves, destructors, thread pinning, prefetching, alignment, telemetry, statistics, printing: no functional result.
- ExecutionEngine, PCAPSimulation, OUCH message layouts, benchmarks: stubs, layouts and timing programs.
