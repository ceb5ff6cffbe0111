# membridge: a verified model

membridge lets processes communicate over a shared memory segment. This project models
its four cooperating parts in Dafny 4.11 and proves what they promise:

- the lock-free single-producer / single-consumer ring buffer of length-prefixed
  messages (`src/spsc.rs`);
- the reader-writer lock in one atomic word (`src/rwlock.rs`);
- the locked memory view with its cursor (`src/mapped_view.rs`);
- the untagged value codec with its packer and two decoders (`src/mixed.rs`).

`dafny verify dfyconfig.toml` checks everything.

## How the model is built

| file | holds |
|---|---|
| `Wrappers.dfy`, `Words.dfy`, `Endian.dfy` | result types, 64-bit wrap-around, the bit mask, native-order integers |
| `Codec.dfy`, `CodecProofs.dfy`, `CodecLaws.dfy` | packer and decoders as written; agreement and round trips; what each tag reads |
| `Frames.dfy` | frames, the byte stream they form, its place in the ring, circular copies |
| `Ring.dfy`, `RingObject.dfy` | the ring object over a byte array, with the real loops; it is the protocol run one side at a time |
| `RingProtocol.dfy` | the ring as a transition system, one step per atomic or byte access |
| `RingInvariant.dfy`, `RingWrap.dfy` | its invariant; the 64-bit machine refines unbounded counters |
| `RingFifo.dfy`, `RingObserve.dfy`, `RingProgress.dfy` | queue histories, races, observations, progress |
| `LockProtocol.dfy`, `LockTheorems.dfy` | lock and protected memory as a transition system; its theorems |
| `View.dfy`, `ViewStreams.dfy` | the view object and its operations; reader and writer cursors |
| `Delivery.dfy` | typed values through codec and ring, and through codec, view and lock |

Two levels are used for concurrent code. The objects (`Ring.SpscRingBuffer`,
`View.MappedView`, `View.ShmRwLock`) carry the code's loops over real arrays and fields
and are specified by functions. The transition systems (`RingProtocol`, `LockProtocol`)
interleave the same accesses of several processes: each atomic load, single-byte access,
compare-and-swap and publishing store is a step of its own. Both levels share the
definitions of frame, cell and stream (`Frames`), of the operations (`Ring.PushReply`,
`View.After`) and of the codec.

In the ring system a load of the other side's counter may return any value that counter
has been given which is not older than the last one seen. `Machine64` computes with
wrapped counters as a release build does, `Ideal` with unbounded ones; one definition of
the steps serves both, and `RingWrap` proves that they run in lockstep. A refusal or an
empty answer carries the number of updates its load missed (`lag`). A stale answer is legal
up to its lag; where no load is stale the histories are linearizable in the plain sense
(`RingFifo.FreshRunIsLinearizable`).

The view object waits for its lock. What the other processes do meanwhile is a finite list
of turns, taken before each access to the lock word; a call is specified by the word and the
bytes it finds when it enters (`View.ReadEntry`, `View.WriteEntry`).

`Endian.NATIVE` is a constant that is left open, so every result holds for both byte
orders.

## Assumptions

- A 64-bit target. Mapped regions and slices are shorter than 2^63 bytes, as the platform
  guarantees (`isize::MAX`).
- A message's payload is shorter than 2^32 bytes, because its length is cast with
  `as u32`. In a ring of at most 2^32 bytes this asks nothing
  (`RingInvariant.AllFitSmallRing`). What happens at and beyond the bound is stated
  exactly by `Ring.SpscRingBuffer.Push`, `Frames.PrefixExact` and
  `CodecProofs.StringRoundTripExact`.
- Exactly one producer and one consumer use a ring, and it is initialised before use.
- Fewer than 2^31 processes use a lock. The exact edge is `LockTheorems.IncrementExact`.
- `init()` of a lock happens while nobody is inside. The exact edge is
  `LockTheorems.ReinitExact`; `examples/single_process.py` maps a created segment twice,
  which is harmless because the lock is free then.

## Where the code and its documentation differ

The model follows the code in each case.

- `push` is documented for `bytes`, `bytearray` and `str`; the code accepts every value
  `pack_value` accepts, and a flat list of them.
- `unpack_mixed_counted` is documented to return one inner list per schema entry; a
  count of 1 yields the bare value instead.
- The comments on `read_mixed` mention a tag `"str16"` and those on `write_mixed` tagged
  tuples; no decoder knows that tag, and the packer takes untagged values.

## Model

| member | source | states |
|---|---|---|
| Words.MaskIsMod | src/spsc.rs:21-23 | masking a counter with `capacity - 1` is reduction modulo a power-of-two capacity |
| Words.MaskInjective | src/spsc.rs:279-281 | two positions less than `cap` apart never share a cell |
| Words.MaskOfWrap | src/spsc.rs:281 | a counter taken modulo 2^64 names the same cell as the true counter |
| Words.WrapDifference | src/spsc.rs:99 | `wrapping_sub` is the true difference while that fits a word, and wrapped counters are equal exactly when the true ones are |
| Words.PowerOfTwoExact | src/spsc.rs:239 | the power-of-two test accepts exactly the numbers 2^k |
| Endian.NeRoundTrip | src/mixed.rs:33-39 | `from_ne_bytes` inverts `to_ne_bytes` for every value that fits the width, in either byte order |
| Endian.NeInverse | src/mixed.rs:100 | `to_ne_bytes` inverts `from_ne_bytes` on every byte string |
| Endian.NeByteAt | src/mixed.rs:33-39 | which byte of the encoding is which digit of the number, in either byte order |
| Codec.PackValue | src/mixed.rs:26-52 | accepts exactly the supported values with integers in the i64 range; a bool appends one byte, numbers their eight native-order bytes, a string its length and its bytes, `bytes` just their own; a failure leaves the vector alone |
| Codec.PackList | src/spsc.rs:78-81 | packs a flat list: succeeds exactly when every element packs, and appends the concatenation |
| Codec.AllPackableExact | src/mixed.rs:72-86 | a list packs exactly when each of its elements does |
| Codec.PackMixed | src/mixed.rs:72-86 | the packed bytes, or the failure, depend only on the flattened sequence of values, however it is grouped |
| Codec.UnpackOne | src/mixed.rs:91-175 | a successful read consumes at least one byte and never more than there are, for any contents and hostile length prefixes |
| CodecLaws.ReadsUnsigned | src/mixed.rs:109-147 | `u8`, `u32` and `u64` read the number their native-order bytes encode |
| CodecLaws.ReadsSigned | src/mixed.rs:111-153 | `i32`, `i64` and `int` read the number whose two's complement the bytes encode |
| CodecLaws.ReadsDoubleAndBool | src/mixed.rs:103-144 | `float` and `f64` read the bit pattern itself; `bool` reads any non-zero byte as true |
| CodecLaws.ReadsSingle | src/mixed.rs:118-121 | `f32` reads a double with the sign, the class, the exact value and the NaN payload of the single its bytes encode |
| CodecLaws.WidenExact | src/mixed.rs:118-121 | widening is exact for every single: normal, subnormal, zero, infinite or NaN |
| CodecLaws.ReadsStr | src/mixed.rs:155-167 | `str` reads the bytes its prefix counts |
| CodecLaws.ReadFailsExactly | src/mixed.rs:91-175 | a read fails exactly for an unknown tag or when too few bytes are left |
| Codec.ReadFixed | src/mixed.rs:237-257 | the cursor loop of the fixed-width and bool tags equals iterating the one-value decoder over suffixes |
| Codec.ReadStrings | src/mixed.rs:265-277 | the string loop with its two bounds checks equals iterating the one-value decoder over suffixes |
| Codec.UnpackMixedCounted | src/mixed.rs:220-293 | on every byte string and schema: the same success, values, grouping and consumed total as group-by-group iteration of the one-value decoder, unknown tags failing even with count 0 |
| Codec.DecodeSplit | src/mixed.rs:228-290 | decoding schema `s + t` is decoding `s` and then `t` on the remaining bytes |
| CodecProofs.DecodersAgree | src/mixed.rs:91-293 | the schema decoder succeeds exactly when all tags are known and the one-value decoder succeeds tag by tag; then values (regrouped) and consumed bytes are equal |
| CodecProofs.ValueRoundTrip | src/mixed.rs:26-52 | one packed value reads back under its tag, and exactly its bytes are consumed, whatever bytes follow |
| CodecProofs.StringRoundTripExact | src/mixed.rs:36-40 | a packed string reads back if and only if it is shorter than 2^32 bytes |
| CodecProofs.StreamRoundTrip | src/mixed.rs:72-175 | reading tag by tag inverts packing value by value and consumes exactly the packed length |
| CodecProofs.RegroupRoundTrip | src/mixed.rs:220-293 | any grouping of values, decoded under any schema whose expanded tags match, comes back regrouped by the schema |
| CodecProofs.RegroupKeepsValues | src/mixed.rs:285-289 | grouping with collapsed singletons loses and reorders nothing |
| CodecProofs.RegroupShape | src/mixed.rs:285-289 | a count of 1 yields the bare value, any other count a list of that many |
| CodecProofs.BadEntryFails | src/mixed.rs:228-282 | a malformed entry or unknown tag anywhere fails the whole schema, even with count 0 |
| CodecProofs.RawPacksAsIs | src/mixed.rs:41-44 | `bytes` values pack to their own bytes, one after the other |
| Frames.PrefixExact | src/spsc.rs:106 | the length prefix tells the payload length if and only if it is below 2^32 |
| Frames.ParseExact | src/spsc.rs:134-144 | parsing a byte string yields a list of messages exactly when it is the stream of that list: framing is unambiguous |
| Frames.BlitInverse | src/spsc.rs:278-296 | a circular copy of at most `cap` bytes at any position reads back |
| Frames.CopyCells | src/spsc.rs:278-296 | byte `i` of a circular copy goes to, and comes from, cell `(pos + i) mod cap` |
| Frames.BlitOutside | src/spsc.rs:278-285 | a circular copy changes no cell outside its window |
| Frames.BlitFrame | src/spsc.rs:278-296 | two copies whose windows fit together in one `cap`-sized span do not disturb each other |
| Frames.StoredWrite | src/spsc.rs:280-284 | writing the next stream byte keeps the live bytes while they are fewer than `cap` |
| Ring.SpscRingBuffer.constructor | src/spsc.rs:247-252 | a created ring is empty with counters 0 |
| Ring.SpscRingBuffer.New | src/spsc.rs:230-255 | creation fails exactly when the region is too small or the capacity is not a power of two |
| Ring.SpscRingBuffer.WriteBytes | src/spsc.rs:278-285 | the loop performs the circular copy, for any 64-bit position |
| Ring.SpscRingBuffer.ReadBytes | src/spsc.rs:289-296 | the loop returns the circular window, for any 64-bit position |
| Ring.SpscRingBuffer.Push | src/spsc.rs:72-114 | error exactly for an unpackable argument or one larger than the capacity, `True` exactly when the frame fits in what `free` reads, `False` only when messages are queued; on `True` the queue gains the payload, the frame is copied at the tail and the tail moves past it, otherwise nothing changes; the live bytes still parse into the queue if and only if an accepted payload is shorter than 2^32 bytes |
| Ring.SpscRingBuffer.LiveParses | src/spsc.rs:18-23 | the bytes from `head` to `tail` are the frames of the queue, and parse back into it exactly when all lengths fit the prefix |
| Ring.SpscRingBuffer.Take | src/spsc.rs:125-145 | takes exactly the oldest message, across wrap points, or nothing when the queue is empty |
| Ring.SpscRingBuffer.Pop | src/spsc.rs:124-154 | nothing exactly on an empty queue, an error exactly when the oldest message does not decode, else that message raw or decoded; a decode error still consumes exactly that message |
| Ring.SpscRingBuffer.PopMixed | src/spsc.rs:194-213 | the same with a schema |
| Ring.SpscRingBuffer.Observe | src/spsc.rs:157-187 | used and free bytes add up to the capacity; empty and full mean what they say |
| RingObject.PushIsSoloRun | src/spsc.rs:72-114 | the object's `push` is the protocol's producer run on its own, on the 64-bit machine: same reply, same memory, same queue |
| RingObject.PopIsSoloRun | src/spsc.rs:125-145 | and taking a message from the object is the consumer run on its own |
| RingObject.SoloPush | src/spsc.rs:90-113 | run alone, a push is too large, refused or accepted exactly by the sizes of its frame and of the queued frames |
| RingInvariant.StepInv | src/spsc.rs:97-145 | every atomic or byte step of either side, with stale loads, keeps the protocol invariant |
| RingInvariant.ReachableInv | src/spsc.rs:97-145 | the invariant holds in every state of every interleaving |
| RingInvariant.AllFitSmallRing | src/spsc.rs:90-106 | in a ring of at most 2^32 bytes no message is long enough to break its prefix |
| RingWrap.StepRefines | src/spsc.rs:97-145 | with wrapped counters each step is enabled alike, takes the same branch, touches the same cell and means the same event as with unbounded ones |
| RingWrap.RunRefinesFrom | src/spsc.rs:97-145 | from any state within the invariant, a 64-bit run of any length is the unbounded run with its counters wrapped, with the same events |
| RingWrap.RunRefines | src/spsc.rs:97-145 | the same from a fresh ring |
| RingWrap.WindowIsQueue | src/spsc.rs:18-23 | in every reachable state the window from head to tail parses into exactly the queued messages and never exceeds the capacity, even in the middle of a frame |
| RingWrap.PlainAddsFit | src/spsc.rs:109-141 | the additions written with plain `+` do not overflow while the true counters stay below 2^64 - cap |
| RingFifo.StepIsAtomic | src/spsc.rs:97-145 | each step is a legal step of the atomic bounded queue or does not change it |
| RingFifo.RunIsFifo | src/spsc.rs:97-145 | every interleaving on the 64-bit machine is a queue history that is legal up to the lag of stale loads, with the replies the calls return, and messages consumed are a prefix of those published |
| RingFifo.FreshRunIsLinearizable | src/spsc.rs:97-145 | where no load of the other counter is stale, every interleaving on the 64-bit machine is linearizable: a legal history of the plain atomic queue with the replies the calls return |
| RingFifo.FreshPushIsExact | src/spsc.rs:97-103 | on a fresh load `push` is refused exactly when the message does not fit beside the queued ones |
| RingFifo.FreshPopIsExact | src/spsc.rs:125-130 | on a fresh load `pop` finds nothing exactly when the queue is empty |
| RingFifo.DataRaceFree | src/spsc.rs:97-141 | cells the producer may still write and cells the consumer may read are disjoint in every reachable pair of positions, however stale the views |
| RingFifo.NextAccessesDiffer | src/spsc.rs:278-296 | on the 64-bit machine the next byte written and the next byte read never share a cell |
| RingObserve.OwnerUsed | src/spsc.rs:157-182 | what a query of either owner replies: the counters it loaded; `used()` is their true difference, at most the capacity, and `is_empty()` is exact for them |
| RingProgress.ProducerQuery | src/spsc.rs:157-182 | a query of the producer reads, on the 64-bit machine, the bytes of the messages it does not know to be consumed, and equal counters exactly when there are none |
| RingProgress.ConsumerQuery | src/spsc.rs:157-182 | a query of the consumer reads the bytes of the messages it knows to be published and has not consumed |
| RingObserve.ThirdObserverUsed | src/spsc.rs:157-161 | whatever happens between a third observer's load of `head` and its later load of `tail`, the difference does not underflow, and the wrapped one is true while less than 2^64 bytes pass |
| RingProgress.TailFirstUnderflows | src/spsc.rs:157-161 | with the loads the other way round it does: a run, for every ring and message that fits, after which the wrapped difference is 2^64 less the frame |
| RingProgress.ThirdObserverMayExceed | src/spsc.rs:172-175 | a run in which a third observer sees twice the capacity, which `saturating_sub` is for |
| RingObserve.SeeingRoom | src/spsc.rs:172-175 | reading `free() >= 4 + len` establishes room for the message |
| RingObserve.SeenRoomIsKept | src/spsc.rs:97-175 | on the 64-bit machine, in every reachable state: after the producer reads `free() >= 4 + len`, no interleaving with consumer steps makes the push of the message fail |
| RingObserve.SeeingMessage | src/spsc.rs:178-182 | reading `is_empty() == False` makes the consumer sure of a message |
| RingObserve.SeenMessageIsKept | src/spsc.rs:125-182 | on the 64-bit machine, in every reachable state: after the consumer reads `is_empty() == False`, no interleaving with producer steps makes its next pop return `None` |
| RingProgress.PushCompletes | src/spsc.rs:97-113 | a push that fits, run alone, is accepted and leaves in memory the circular copy of its frame |
| RingProgress.PushRefused | src/spsc.rs:97-103 | a push that does not fit, run alone, returns `False` and changes nothing |
| RingProgress.PopCompletes | src/spsc.rs:125-145 | a pop from a non-empty queue, run alone, returns the oldest message |
| RingProgress.PopEmpty | src/spsc.rs:128-130 | a pop from an empty queue, run alone, returns `None` |
| RingProgress.RefusedMeansPoppable | src/spsc.rs:90-130 | when a message that can fit the empty ring is refused, there is a complete message to pop: the two sides are never both stuck |
| RingProgress.StalePushRefused | src/spsc.rs:97-103 | a run in which a stale load refuses a message that the empty ring would take |
| RingProgress.StalePopFindsNothing | src/spsc.rs:125-130 | a run in which a stale load hides a published message |
| RingProgress.RoundProgress | examples/spsc_producer.py:18-36 | while messages are missing, a stretch of a run that serves both retry loops sends or consumes at least one |
| RingProgress.RoundExists | examples/spsc_producer.py:18-36 | such a stretch exists from every state with both sides idle |
| RingProgress.RetriesDeliver | examples/spsc_producer.py:18-36 | retrying delivers every message, in order and unchanged, within two such stretches per message, under any schedule |
| LockProtocol.StepInv | src/rwlock.rs:68-113 | every step of every process keeps word, memory and reads consistent, with load and compare-and-swap separate |
| LockProtocol.WordStep | src/rwlock.rs:68-113 | every step keeps the encoding of the word, including a compare-and-swap whose expected value was left and reached again, and the blind store of 0; a reader gets in exactly on the loaded value, a writer exactly on 0 |
| LockTheorems.ReachableInv | src/rwlock.rs:68-113 | the invariant holds in every state of every interleaving of any number of processes |
| LockTheorems.WordMeaning | src/rwlock.rs:16-20 | the word is -1 exactly when one process writes and none reads, and `n` exactly when `n` read and none writes |
| LockTheorems.Exclusion | src/rwlock.rs:93-108 | a writer is never inside together with another process |
| LockTheorems.ReadsAreSnapshots | src/mapped_view.rs:69-96 | all bytes a finished read saw, in any order and however often, belong to one data area: a prefix of the writes, each applied at once, in lock order |
| LockTheorems.ReadSeesAllCompleted | src/mapped_view.rs:91-95 | that prefix is every write completed when the read holds the lock |
| LockTheorems.CopiedRange | src/mapped_view.rs:69-96 | a range copied byte by byte is a slice of one snapshot |
| LockTheorems.ReinitExact | src/mapped_view.rs:343-345 | storing 0 again keeps the encoding if and only if nobody is inside |
| LockTheorems.IncrementExact | src/rwlock.rs:72-79 | a reader's increment keeps the encoding if and only if there are fewer than 2^31 - 1 readers |
| LockTheorems.WriterEntersExactly | src/rwlock.rs:95-108 | a waiting writer gets in exactly when the word is 0, and then it is -1; otherwise nothing changes |
| LockTheorems.WriteCompletes | src/mapped_view.rs:123-138 | a write run alone while nobody is inside completes: its payload is in place, all other bytes are unchanged, the lock is free again |
| LockTheorems.ReadCompletes | src/mapped_view.rs:84-96 | a read run alone while nobody writes completes, other readers inside or not: it has seen the bytes of the area, and word, area and other processes are as before |
| LockTheorems.FailureNeedsChange | src/rwlock.rs:71-81 | whatever the other processes do after a reader's load, its compare-and-swap succeeds exactly when the word has the loaded value again, else it tries again, and if it fails then the word was changed since the load |
| LockTheorems.ChangesCountTheWord | src/rwlock.rs:68-113 | the counted changes are exactly the steps after which the word has another value |
| LockTheorems.FailuresAreCharged | src/rwlock.rs:68-86 | in any run a reader's compare-and-swap fails at most as often as other processes change the word: each failure has a change of its own |
| LockTheorems.ReaderRetriesBounded | src/rwlock.rs:68-86 | over any run, failed compare-and-swaps are at most the number of processes that ever start a read times the successful changes of the word |
| View.WriteEntryIsFirst | src/rwlock.rs:95-108 | a waiting writer enters at the first of its attempts that finds the word 0 |
| View.ReadEntryIsReached | src/rwlock.rs:68-86 | a waiting reader enters in a state the others left, where its load and its compare-and-swap found the same word and no writer |
| View.ReadEntryIsPrompt | src/rwlock.rs:68-86 | and it wastes no chance: three accesses in a row that find the same word, no writer's, are enough |
| View.ShmRwLock.ReadLock | src/rwlock.rs:68-86 | whatever others do to the word meanwhile, waits until its compare-and-swap succeeds and adds one reader then |
| View.ShmRwLock.ReadUnlock | src/rwlock.rs:89-91 | removes one reader |
| View.ShmRwLock.WriteLock | src/rwlock.rs:95-108 | whatever others do to the word meanwhile, waits until it is free and turns it into -1 then |
| View.ShmRwLock.WriteUnlock | src/rwlock.rs:111-113 | leaves the word free |
| View.MappedView.New | src/mapped_view.rs:334-352 | fails exactly when the segment has no room beyond the lock word; a new view has cursor 0; only the creator resets the lock word |
| View.MappedView.Put | src/mapped_view.rs:123-138 | succeeds exactly for a non-empty payload within bounds; then, after waiting for the lock, the payload is at its position in the area the others left and every other byte is as they left it; the cursor moves by the payload without an explicit offset and not at all with one; the lock word is restored on every exit |
| View.MappedView.Write | src/mapped_view.rs:112-139 | the same for one packed value, `bytes` being put as they are; a failing call changes neither bytes nor cursor |
| View.MappedView.WriteMixed | src/mapped_view.rs:264-284 | the same for a packed list |
| View.MappedView.Read | src/mapped_view.rs:180-192 | decodes at the cursor and advances by what was consumed; on a decode error nothing changes and the lock word is restored |
| View.MappedView.ReadMixed | src/mapped_view.rs:230-260 | reads tag by tag at the offset or the cursor and groups by the schema, failing without taking the lock when nothing is left; an explicit offset leaves the cursor alone; lock word restored on every exit |
| View.MappedView.ReadAll | src/mapped_view.rs:69-75 | returns the data area as found on entering, lock word restored |
| View.MappedView.ReadRange | src/mapped_view.rs:84-96 | fails exactly for an empty or out-of-bounds range, otherwise returns the slice |
| View.MappedView.Zero | src/mapped_view.rs:287-292 | zeroes every byte, lock word restored |
| View.MappedView.Seek | src/mapped_view.rs:143-151 | moves the cursor exactly when the position is inside the area |
| View.CursorStaysInside | src/mapped_view.rs:143-191 | no call, successful or failing, on any memory contents, moves the cursor out of the data area |
| View.AfterAll | src/mapped_view.rs:366-377 | the same over every sequence of calls, with arbitrary changes by other processes between them |
| ViewStreams.WritesLayOutStream | src/mapped_view.rs:112-139 | after any successful cursor writes the cursor has advanced by the packed lengths, the bytes passed are the packed values, all others are unchanged |
| ViewStreams.ReadsAreOneReadMixed | src/mapped_view.rs:180-260 | a run of cursor reads equals one `read_mixed` of the combined schema, in values, success and final cursor |
| ViewStreams.ReaderRecoversStream | examples/single_process.py:7-30 | a second view at the same start recovers all values in order and ends at the same cursor |
| ViewStreams.ReaderRecoversGroups | examples/single_process.py:22-34 | the same with one `read_mixed`, grouped as its schema asks |
| Delivery.Perform | src/spsc.rs:72-213 | any sequence of `push`, `pop` and `pop_mixed` calls on the ring object, wherever frames wrap: the k-th pop that finds a message gives back the k-th accepted argument |
| Delivery.CallsMatchUp | src/spsc.rs:72-213 | in the queue those calls are proved against, the k-th pop that finds a message opens the payload of the k-th accepted push, errors included |
| Delivery.TypedDelivery | src/spsc.rs:72-213 | and with matching tags or schemas it returns the original values |
| Delivery.ConcurrentTypedDelivery | src/spsc.rs:72-213 | the same between two processes in every interleaving on the 64-bit machine |
| Delivery.ConcurrentScalarDelivery | src/spsc.rs:72-154 | and for scalars popped with a matching tag |
| Delivery.CallsAreProtocolWrites | src/mapped_view.rs:112-292 | any sequence of calls through a view leaves in the area what the lock protocol's writes of their payloads leave, each within bounds |
| CodecProofs.BytesReadDecide | src/mixed.rs:91-175 | the one-value decoder's result, success or failure, depends only on the bytes it reads and how many there are |
| CodecProofs.SchemaBytesReadDecide | src/mixed.rs:220-293 | the same for the schema decoder |
| Delivery.TypedReadIsAtomic | src/mapped_view.rs:180-192 | in every interleaving, a `read` that touched just the bytes its decoder reads returns what it would return on the data area after a prefix of the completed writes |
| Delivery.MixedReadIsAtomic | src/mapped_view.rs:230-260 | the same for `read_mixed` |

## Left out

- Operating system shared memory, name checks, mapping and unmapping (`src/platform/`,
  `src/shared_memory.rs`): a region is a fixed-length byte array. Error texts
  (`src/error.rs`) are dropped.
- Python object handling: arguments and results are a value datatype. Strings with
  unpaired surrogates, which have no UTF-8 form, are not modelled.
- UTF-8 validation and replacement in decoded strings: a decoded string is the byte
  sequence itself, which is what the code returns for valid UTF-8.
- Codec.Bytes: `bytes` values have no tag or length prefix, so the typed round trips do
  not speak of them; `pop` without a tag gives them back as they were (Delivery.TypedDelivery).
- Codec.Widen: quieting of signalling NaNs when an `f32` becomes a Python float.
- Codec.PackValue: values are compared as bit patterns, so IEEE 754 equality plays no part.
- Ring.SpscRingBuffer.New: attaching to an existing ring (`is_creator == false`) only
  re-uses the header, and is not modelled.
- View.ShmRwLock.ReadLock: a call returns only if the others' turns end and finally leave
  no writer inside; a loop that spins for ever promises nothing. The same holds for the
  view's reading methods.
- View.ShmRwLock.WriteLock: likewise, if they finally leave the word 0; the same holds for
  the view's writing methods. What others do between a call's entry and its unlock is
  modelled in LockProtocol only.
- LockProtocol.StepInv: writers have no fairness guarantee, as in the code; a process that
  crashes inside the lock is not modelled.
- RingProtocol.Next: memory is a single array of bytes. Stale loads of the other side's
  counter together with the proved absence of data races stand for the acquire and release
  orderings; other weak-memory effects are not modelled.
- RingProgress.RetriesDeliver: counts stretches in which both sides get a load of the
  newest counter and finish the call; it does not say how long a machine takes to show it.
- The accessors `size`, `capacity`, `name`, `reader_count`, `is_write_locked` and the
  textual representations.
