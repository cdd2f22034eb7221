# quicX common layer: a verified model

quicX is a QUIC and HTTP/3 library. This project models the foundation under it, the `common` layer, and proves
what that layer is relied on for:

- **Timers** (`Common`, `Bits`, `WheelPlacement`, `WheelState`, `TimerSpec`, `WheelOrder`, `WheelOps`, `WheelMin`,
  `TimingWheel`, `TreeMap`, `TimerRuns`). The three-level timing wheel with its cascades, occupancy bitmaps, per-slot
  minima and lazily invalidated minimum cache, proved against a plain map id -> deadline over every sequence of calls,
  with the order in which equal deadlines run, next to the sorted-map timer it replaces.
- **Slab allocator** (`PoolAlloter`). Size-class free lists, a bump region, batch refill and leftover recycling:
  disjointness and exact conservation of bytes over every sequence of requests.
- **Task hand-off** (`EventLoop`). Posting, waking, waiting and draining as interleaved atomic steps: no lost
  wakeup, and every task runs once in posting order.
- **Buffers** (`Varint`, `MultiBlock`, `DecodeWrapper`, `FrozenSpans`). The chunked byte queue as a plain queue, its
  prefix read-outs, the decoder whose fast and slow paths agree on every segmentation, and the freeze protocol that
  keeps bytes under live spans unchanged.
- **URL coding** (`Url`) and **metrics** (`Metrics`). Round trips with their exact conditions, and conservation of
  every counter and histogram cell across thread births and deaths.

`dafny verify dfyconfig.toml` checks the whole project. State that the source updates in place is a class; its
loops work on the values of the fields in module-level methods, which the class methods assign back.

## What the code does not do

Properties one would expect, and that the code has only under a condition, are stated with that condition.

- A timer added with no delay in the millisecond the wheel has just processed fires 256 ms late and leaves the
  minimum cache stale (`ZeroDelayIsLate`, `WitnessRun`, `LateTimerWitness`). `AddTimer` and `AdmissibleIff` give the
  exact condition for a timer to be on time, as a test on the clock, the delay and the wheel's current time.
- When a run goes wrong that way is known exactly: a clean cached minimum is wrong after `TimerRun` if and only if no
  timer fires by the minimum and all those due at it fire, late, in that run (`StaleIff`). Late timers are never
  lost; `FiresAtIff` says when each one fires.
- The wheel does not run timers of equal deadline first in, first out (`LaterRunsFirst`). Which of two runs first is
  decided by their places (`AddedOrder`, `SweepLeads`): in one slot the older; otherwise the one in the lower level,
  unless the boundary that brings the higher one down is also the lower one's. The sorted-map timer runs them by id.
- The sorted-map timer reads the low 32 bits of the 64-bit distance as a signed number. Its answer equals the wheel's
  exactly in these cases (`MinTimeAgreesIff`): the timer is ahead by at most 2^31 - 1 ms, or by more with low 32 bits
  2^31 - 1; or it is due, or overdue by at most 2^31 ms modulo 2^32. Its `RemoveTimer` reports success when the time
  bucket exists, even without the id.
- A failed multi-chunk `DecodeBytes` consumes what was left, a failed contiguous one nothing; and a wrapper made on a
  buffer with nothing to read has null pointers that refuse even zero bytes (`BytesAgreeIff`, `ZeroBytesWitness`).
- A query map that gives the empty key the empty value does not survive serialisation (`ParseInvertsSerializeIff`),
  and a path needs a leading `/` and no `?` (`PathRoundTripIff`).
- Histogram lines are cumulative counts exactly when the bounds were registered in nondecreasing order
  (`ExportCorrectIff`, `WrongLine`).

## Reading the model

Clocks, random timer ids and the enumeration order of hash maps are parameters. Callbacks are entries of a log.
`TimerRun` needs a time below 2^64 - 1, because the loop `while (current <= now)` does not end there. `Malloc` needs
a positive size, because the class index of size 0 wraps around. A `BufferReader` needs fewer than 2^32 readable
bytes, because lengths are returned in 32 bits. Unless a row says otherwise, 64-bit arithmetic wraps explicitly.

## Model

| member | source | states |
|---|---|---|
| `Bits.ClearLowest` | src/common/timer/timing_wheel_timer.cpp:471-476 | `w & (w - 1)` removes exactly the bit that count-trailing-zeros finds, so a scan visits each set bit once |
| `Bits.NextSetFrom256` | src/common/timer/timing_wheel_timer.cpp:391-407 | the result is the first set position at or after `from` in the 256-bit map, or 256 when there is none |
| `WheelPlacement.CascadeSettles` | src/common/timer/timing_wheel_timer.cpp:335-350 | the cascades of one iteration leave an on-time timer either in level 0 within one revolution or in a slot whose next visit is strictly later and still no later than its deadline |
| `WheelPlacement.SettledFiresWhenDue` | src/common/timer/timing_wheel_timer.cpp:352-358 | after the cascades, the slot swept at time t holds a timer if and only if its deadline is t, and every other timer is on time for t + 1 |
| `WheelPlacement.FiresAtDeadlineIff` | src/common/timer/timing_wheel_timer.cpp:228-378 | followed through all later cascades, a stored timer fires in the iteration of its own deadline if and only if its place is on time now |
| `WheelPlacement.FiresOnce` | src/common/timer/timing_wheel_timer.cpp:335-378 | no timer fires in two different iterations |
| `WheelPlacement.FiresAtIff` | src/common/timer/timing_wheel_timer.cpp:228-378 | every stored timer, on time or late, in any level, fires at one time and no other: its deadline if on time, else the next visit of its level-0 slot, or the level-0 sweep after the next cascade of its slot; so no timer is ever lost |
| `WheelPlacement.CascadedAtVisit` | src/common/timer/timing_wheel_timer.cpp:335-350 | outside level 0 the cascades take a timer exactly at the times congruent to its slot's start |
| `WheelPlacement.AdmissibleIff` | src/common/timer/timing_wheel_timer.cpp:42-79 | for every caller clock, delay and wheel time: exactly when `AddTimer` places the timer on time; for a clock at most one millisecond behind the wheel this is that the deadline is not processed yet and a level-0 timer is within one revolution |
| `WheelPlacement.ZeroDelayIsLate` | src/common/timer/timing_wheel_timer.cpp:228-262 | a timer added with no delay in the millisecond just processed fires exactly 256 ms late, for every such millisecond |
| `WheelPlacement.Level0FiresAt` | src/common/timer/timing_wheel_timer.cpp:352-366 | a level-0 timer fires at the first time from now on that agrees with its deadline modulo 256, and at no other time |
| `WheelState.PlaceKeeps` | src/common/timer/timing_wheel_timer.cpp:228-285 | appending a timer to the slot its deadline selects, setting the occupancy bit, lowering the slot minimum and recording the location keeps every index consistent with id -> deadline |
| `WheelState.EraseKeeps` | src/common/timer/timing_wheel_timer.cpp:86-160 | taking one timer out of its slot keeps every index consistent, provided the slot bit and slot minimum are those of the remaining timers |
| `WheelState.TakeKeeps` | src/common/timer/timing_wheel_timer.cpp:290-312 | emptying a whole slot and its bit and minimum leaves the rest consistent, and removes exactly the timers whose location names that slot |
| `WheelOps.InsertKeeps` | src/common/timer/timing_wheel_timer.cpp:228-285 | `Insert` adds exactly one id -> deadline entry to a consistent store |
| `WheelOps.ScanSlotMin` | src/common/timer/timing_wheel_timer.cpp:409-415 | the result is the least deadline in the slot, or 2^64 - 1 for an empty slot |
| `WheelOps.Erase` | src/common/timer/timing_wheel_timer.cpp:86-160 | removal by location deletes exactly one id, keeps slots, bits, minima, locations and the count consistent, and returns the deadline it had |
| `WheelOps.Cascade` | src/common/timer/timing_wheel_timer.cpp:290-326 | every timer of the cascaded slot is re-placed by its distance from now, behind what its new slot holds and in the order it had, and no other moves; the map id -> deadline, the bits, the minima and the count all stay in agreement |
| `WheelOps.CascadeBoundaries` | src/common/timer/timing_wheel_timer.cpp:335-350 | the cursor tests of `Tick` move each timer exactly as its single-timer path says, at all three boundaries |
| `WheelOps.Sweep` | src/common/timer/timing_wheel_timer.cpp:335-368 | one iteration fires exactly the timers whose path ends in the swept slot, in slot order, removes them from every index, and leaves all others where their path says |
| `WheelOps.StepKeepsOnTime` | src/common/timer/timing_wheel_timer.cpp:335-378 | with all timers on time, an iteration at time t removes exactly the timers due at t and leaves the rest on time for t + 1 |
| `WheelOps.StepKeepsCache` | src/common/timer/timing_wheel_timer.cpp:369-374 | the invalidation rule after an iteration keeps a clean cached minimum exact |
| `WheelOrder.CascadeSlotAt` | src/common/timer/timing_wheel_timer.cpp:290-326 | a cascade appends to every slot, in order, exactly the tasks of the cascaded slot that go there |
| `WheelOrder.TogetherStep` | src/common/timer/timing_wheel_timer.cpp:335-368 | two timers of one deadline in one slot, on time or late, stay in one slot in their order until one iteration runs both, in that order |
| `WheelOrder.SweepLeads` | src/common/timer/timing_wheel_timer.cpp:335-368 | for two timers of one deadline, on time and within one revolution of their levels, in any two places: the iteration of the deadline runs the leading one first, and every earlier one leaves it leading, where the lower level leads unless the boundaries that bring the two down coincide |
| `WheelOrder.InOrderNext` | src/common/timer/timing_wheel_timer.cpp:335-378 | the same over any stretch of iterations: what leads at its start is logged first, or still leads |
| `WheelOrder.AddedOrder` | src/common/timer/timing_wheel_timer.cpp:228-285 | a newly added timer runs behind an older one of the same deadline if and only if that one is in the same slot or in a place that goes first; otherwise before it |
| `WheelOrder.NearIff` | src/common/timer/timing_wheel_timer.cpp:228-262 | a timer placed by a clock that is not ahead of the wheel is within one revolution of its level exactly if it is on time |
| `WheelOrder.AddKeepsLeads` | src/common/timer/timing_wheel_timer.cpp:42-79 | adding another timer leaves the order of two timers as it was |
| `WheelOrder.RemoveKeepsLeads` | src/common/timer/timing_wheel_timer.cpp:86-160 | so does removing another one |
| `WheelOrder.LaterRunsFirst` | src/common/timer/timing_wheel_timer.cpp:228-285 | the concrete failing input for first in, first out: of two timers for 520, added at 0 and at 300, the later one runs first |
| `WheelMin.MinOverBits` | src/common/timer/timing_wheel_timer.cpp:466-489 | scanning set bits lowest first yields the minimum of the start value and the slot minima at the set bits |
| `WheelMin.EarliestDeadline` | src/common/timer/timing_wheel_timer.cpp:434-496 | read off bitmaps (with level-0 wrap-around) and slot minima, the result is the minimum over all pending deadlines whenever every timer is on time; in any state, late timers included, it is the least of the next sweep of a level-0 slot that holds a timer and the deadlines held above level 0 |
| `TimingWheel.TimingWheelTimer.constructor` | src/common/timer/timing_wheel_timer.cpp:30-35 | an empty wheel with a clean cache satisfies both invariants |
| `TimingWheel.TimingWheelTimer.AddTimer` | src/common/timer/timing_wheel_timer.cpp:42-79 | adds exactly the entry id -> (reference + delay) mod 2^64 at the end of the slot its distance selects, keeps all indexes, updates the clean cache, and keeps the on-time invariant if and only if the placement is on time |
| `TimingWheel.TimingWheelTimer.RemoveTimer` | src/common/timer/timing_wheel_timer.cpp:86-160 | true if and only if the id was pending; removes exactly that id, from its slot list and every index; keeps both invariants including the exactness of a clean cache |
| `TimingWheel.TimingWheelTimer.MinTime` | src/common/timer/timing_wheel_timer.cpp:169-194 | -1 if and only if nothing is pending; otherwise 0 when the minimum is overdue and else the distance to it clamped to 2^31 - 1, where the minimum is the true one under the on-time invariant, the cached one when the cache is clean, and the rebuilt one, late timers included, when it is not |
| `TimingWheel.TimingWheelTimer.Tick` | src/common/timer/timing_wheel_timer.cpp:335-378 | every timer pending before either fired in exactly one logged iteration of its path or is still pending where its path has taken it; the cached minimum is invalidated by a firing at or before it and by nothing else |
| `TimingWheel.TimingWheelTimer.TimerRun` | src/common/timer/timing_wheel_timer.cpp:199-212 | under the on-time invariant the fired log is exactly the timers due by now, each once, in deadline order, each in the iteration of its own deadline, and the rest stay pending; timers of equal deadline run in the order their places and slots give; in any state with an exact clean cache, the cache is wrong afterwards if and only if no timer fires by the minimum and all those due at it fire, late, in this run |
| `TimingWheel.RanPunctual` | src/common/timer/timing_wheel_timer.cpp:199-212 | a stretch of iterations over on-time timers fires exactly those due in it, each at its deadline |
| `TimingWheel.GoneIff` | src/common/timer/timing_wheel_timer.cpp:335-378 | a pending timer is gone after a stretch of iterations if and only if its firing time lies in it, and the log has it at that time |
| `TimingWheel.StaleIff` | src/common/timer/timing_wheel_timer.cpp:369-374 | when a run leaves a clean cached minimum that is not the minimum, as a condition on the state before the run |
| `TreeMap.TreeMapTimer.AddTimer` | src/common/timer/treemap_timer.cpp:12-22 | a fresh increasing id is mapped to (now + delay) mod 2^64 and nothing else changes |
| `TreeMap.TreeMapTimer.RemoveTimer` | src/common/timer/treemap_timer.cpp:24-34 | deletes the id only from the bucket of the given time, and answers whether that bucket existed rather than whether the id was found |
| `TreeMap.TreeMapTimer.MinTime` | src/common/timer/treemap_timer.cpp:36-54 | -1 if and only if nothing is pending, else the 32-bit truncated distance to the minimum, clamped below at 0 |
| `TreeMap.TreeMapTimer.TimerRun` | src/common/timer/treemap_timer.cpp:56-86 | fires exactly the timers due by now, each once, in deadline order and by id within one deadline, and keeps the rest |
| `TreeMap.MinTimeAgreesIff` | src/common/timer/treemap_timer.cpp:45-53 | the truncated waiting time equals the clamped one if and only if the timer is ahead by at most 2^31 - 1 ms or by more with low 32 bits 2^31 - 1, or is overdue by at most 2^31 ms modulo 2^32 |
| `TimerRuns.SameSchedule` | src/common/timer/treemap_timer.cpp:56-86 | two logs that each run exactly the due timers in deadline order run the same ids and the same sequence of deadlines |
| `TimerRuns.HistoryRun` | src/common/timer/timing_wheel_timer.cpp:199-212 | a run extends a history in which each timer is pending, removed, or ran once at its deadline, in deadline order throughout |
| `TimerRuns.Drive` | src/common/timer/timing_wheel_timer.cpp:42-212 | for every sequence of calls: as long as the timers added so far were admissible, both timers give the answers the plain map id -> deadline calls for, on the same schedule, and in the whole run each timer not removed fires exactly once in the iteration of its deadline and a removed one never |
| `TimerRuns.WitnessRun` | src/common/timer/timing_wheel_timer.cpp:228-262 | the concrete failing run: a zero-delay timer for 1000 added after 1000 was processed fires at 1256 and the timer for 5000 stays |
| `TimerRuns.LateTimerWitness` | src/common/timer/timing_wheel_timer.cpp:169-194 | after that run the cached minimum is stale: `MinTime` answers 0 while the only pending deadline is 3700 ms away |
| `PoolAlloter.ListIndex` | src/common/alloter/pool_alloter.h:46-48 | the class of a size is the smallest multiple of 8 that holds it |
| `PoolAlloter.PoolAlloter.ChunkAlloc` | src/common/alloter/pool_alloter.cpp:106-141 | takes the front of the bump region, as many blocks as fit up to the wanted number, when at least one fits; otherwise recycles the leftover as one free block and cuts a fresh chunk; the result is disjoint from all blocks and the bump region, no byte is lost, and it terminates |
| `PoolAlloter.PoolAlloter.PutLeftover` | src/common/alloter/pool_alloter.cpp:127-131 | the leftover becomes the head of the free list of its own, strictly smaller class, and no other list changes |
| `PoolAlloter.Link` | src/common/alloter/pool_alloter.cpp:91-103 | the loop cuts the region into consecutive blocks of the class size, disjoint from everything else |
| `PoolAlloter.PoolAlloter.ReFill` | src/common/alloter/pool_alloter.cpp:76-104 | hands out the first of the blocks obtained and turns the others, in address order, into the class list, keeping the arena exact |
| `PoolAlloter.PoolAlloter.Malloc` | src/common/alloter/pool_alloter.cpp:27-42 | a request up to 256 bytes gets a block that is not live, of its class size: the head of the class list, with nothing else changed, when there is one, else the front of the bump region or of one fresh chunk; larger requests leave the arena alone |
| `PoolAlloter.PoolAlloter.Free` | src/common/alloter/pool_alloter.cpp:56-74 | exactly the returned block stops being live and becomes the head of its class list; the pointer is nulled |
| `PoolAlloter.FreeThenMalloc` | src/common/alloter/pool_alloter.cpp:27-74 | freeing a block and asking for its class again gives the same block and leaves the pool exactly as it was |
| `PoolAlloter.FreeBytesAre` | src/common/alloter/pool_alloter.cpp:56-74 | the bytes on the free lists are exactly those of the carved blocks that are not live |
| `PoolAlloter.Conservation` | src/common/alloter/pool_alloter.cpp:76-141 | bytes obtained = live blocks + free-listed blocks + bump region |
| `PoolAlloter.HandlesSeparate` | src/common/alloter/pool_alloter.cpp:27-42 | held pointers are aligned, large enough, inside one chunk and pairwise disjoint |
| `PoolAlloter.HandlesNotFree` | src/common/alloter/pool_alloter.cpp:27-74 | no held pointer overlaps a free-listed block |
| `PoolAlloter.RunPool` | src/common/alloter/pool_alloter.cpp:27-141 | for every sequence of allocations and matching releases: the held sizes are those requested and not released; every one up to 256 bytes has a live pool block of its class and every larger one a pointer of the fallback allocator; their memory is disjoint from each other, from free blocks and from the bump region; and bytes are conserved |
| `EventLoop.StepKeeps` | src/common/network/event_loop.cpp:79-116 | every atomic step of posters and loop keeps the hand-off invariant |
| `EventLoop.NoLostWakeup` | src/common/network/event_loop.cpp:382-410 | in every run, when the loop is blocked with a positive timeout while tasks are queued, the wakeup token is set or some poster is about to set it, posts before `Init` included |
| `EventLoop.OnceInOrder` | src/common/network/event_loop.cpp:420-435 | in every state of every run, tasks run ++ tasks swapped out ++ queue is the sequence of tasks the posting actions pushed so far |
| `EventLoop.DrainRunsAllPosted` | src/common/network/event_loop.cpp:420-435 | a drain that starts when n tasks were posted ends with exactly those n run, in order, whatever was posted meanwhile |
| `EventLoop.WaitRunsAllPosted` | src/common/network/event_loop.cpp:79-196 | by the next `Wait` every task posted before the driver returned has run |
| `EventLoop.BlocksFor` | src/common/network/event_loop.cpp:79-116 | the time the loop blocks is 0 if and only if a same-thread wakeup came since the last choice, a task was queued at the check, or the timers say so; otherwise exactly what the timers say, or 1000 ms when there is none |
| `EventLoop.WakeupPolls` | src/common/network/event_loop.cpp:397-410 | after a wakeup from the loop thread the next wait polls, whatever happens in between |
| `EventLoop.WakesIff` | src/common/network/event_loop.cpp:382-395 | a poster owes a wakeup if and only if its last push met an empty queue and it has not woken the loop since |
| `EventLoop.TokenIs` | src/common/network/event_loop.cpp:397-410 | the wakeup token is set if and only if a wakeup from another thread came after `Init` and after the last wait that consumed it |
| `Varint.DecodeEncoded` | src/common/decode/decode.cpp:45-135 | decoding an encoded value followed by any bytes gives the value and consumes exactly its encoded length |
| `Varint.DecodeIff` | src/common/decode/decode.cpp:111-135 | decoding yields value v and length n if and only if n is a varint length that can hold v and the bytes start with the n-byte form of v, shortest or not |
| `Varint.FormIs` | src/common/decode/decode.cpp:45-98 | byte i of the n-byte form of v is v / 256^(n-1-i) mod 256, plus the length bits of section 16 of RFC 9000 in the first |
| `Varint.EncodedIs` | src/common/decode/decode.cpp:100-109 | the encoder writes the shortest of the forms that hold the value |
| `Varint.SampleEncodings` | src/common/decode/decode.cpp:45-98 | the 4-, 2- and 1-byte examples of appendix A.1 of RFC 9000 |
| `Varint.SampleLongForm` | src/common/decode/decode.cpp:111-135 | its two-byte form of 37 |
| `Varint.EncodedShortest` | src/common/decode/decode.cpp:100-109 | no varint of the value is shorter than the one the encoder picks |
| `Varint.DecodeAllEncoded` | src/common/decode/decode.cpp:45-135 | any sequence of values below 2^62 encoded back to back before any suffix decodes to the same sequence and length |
| `Varint.DecodePrefix` | src/common/decode/decode.cpp:111-135 | eight bytes, or all there are, suffice to decode |
| `Varint.EncodeVarint` | src/common/decode/decode.cpp:45-98 | succeeds if and only if the value fits 62 bits and the room suffices; writes exactly the encoding in place and touches no other byte |
| `Varint.DecodeVarint` | src/common/decode/decode.cpp:111-135 | the accumulator loop computes the big-endian value behind the two length bits, or fails when bytes are missing |
| `Varint.BigEndianIs` | src/common/decode/decode.cpp:148-209 | byte i of the n-byte encoding of v is v / 256^(n-1-i) mod 256 |
| `Varint.DecodeFixedEncoded` | src/common/decode/decode.cpp:148-219 | fixed-width decoding inverts fixed-width encoding before any suffix, for every width and every value that fits |
| `Varint.DecodeFixedIff` | src/common/decode/decode.cpp:156-219 | fixed-width decoding yields v if and only if v fits and the bytes start with its big-endian form |
| `Varint.FixedEncodeUint` | src/common/decode/decode.cpp:148-209 | succeeds if and only if the room suffices; writes exactly the big-endian bytes in place and touches no other byte |
| `MultiBlock.Consume` | src/common/buffer/multi_block_buffer.cpp:68-135 | the read loop returns the first min(len, total) bytes, leaves the rest, keeps the running length equal to the readable bytes, and terminates |
| `MultiBlock.EnsureWritableChunk` | src/common/buffer/multi_block_buffer.cpp:667-690 | afterwards the last chunk has room and the content is unchanged; the list is unchanged when the last chunk had room, else one fresh empty block of the pool is added at the end |
| `MultiBlock.Append` | src/common/buffer/multi_block_buffer.cpp:427-459 | writes all bytes, appended in order, across as many chunks as it takes, filling each chunk before the next is taken, and terminates |
| `MultiBlock.MultiBlockBuffer.Read` | src/common/buffer/multi_block_buffer.cpp:68-102 | returns and removes the first min(len, total) bytes |
| `MultiBlock.MultiBlockBuffer.MoveReadPt` | src/common/buffer/multi_block_buffer.cpp:104-135 | removes the first min(len, total) bytes |
| `MultiBlock.MultiBlockBuffer.Write` | src/common/buffer/multi_block_buffer.cpp:427-459 | appends all bytes |
| `MultiBlock.MultiBlockBuffer.GetFirstChunkReadable` | src/common/buffer/multi_block_buffer.cpp:291-307 | empty if and only if nothing is asked for or readable, else an in-place prefix of the content within one chunk |
| `MultiBlock.MultiBlockBuffer.GetCoalescedReadable` | src/common/buffer/multi_block_buffer.cpp:316-371 | exactly the first min(n, total) bytes, in a chunk of its own if and only if the first readable chunk holds too few of them, else in place |
| `MultiBlock.MultiBlockBuffer.GetSharedReadableSpans` | src/common/buffer/multi_block_buffer.cpp:378-406 | one span per chunk, in chunk order, whose concatenation is the same prefix |
| `MultiBlock.MultiBlockBuffer.CloneReadable` | src/common/buffer/multi_block_buffer.cpp:162-203 | fails if and only if too little is readable; else the clone holds the first n bytes and the original keeps or drops them as asked |
| `MultiBlock.CoversNext` | src/common/buffer/multi_block_buffer.cpp:331-365 | the step the read-out loops share: each chunk extends the prefix by exactly its share, in order |
| `MultiBlock.FirstInFirstOut` | src/common/buffer/multi_block_buffer.cpp:68-135 | on the plain byte queue, what left followed by what is still there is everything that was written |
| `MultiBlock.RunQueue` | src/common/buffer/multi_block_buffer.cpp:68-135 | every run of writes, reads and skips over chunks of any size returns the counts and bytes of the plain byte queue and ends with its content, both functions of the calls alone |
| `DecodeWrapper.CopyWindow` | src/common/buffer/buffer_reader.cpp:61-119 | the visitor loop over chunks copies exactly the window [from, from + n) of the flattened bytes |
| `DecodeWrapper.BufferReader.ReadNotMovePt` | src/common/buffer/buffer_reader.cpp:61-119 | the first min(len, rest) bytes past the staged offset; nothing moves |
| `DecodeWrapper.BufferReader.MoveReadPt` | src/common/buffer/buffer_reader.cpp:121-149 | advances the staged offset by min(len, rest); the buffer is not touched |
| `DecodeWrapper.BufferReader.Read` | src/common/buffer/buffer_reader.cpp:151-167 | both of the above together |
| `DecodeWrapper.BufferReader.Sync` | src/common/buffer/buffer_reader.cpp:247-253 | the buffer now starts at the staged offset |
| `DecodeWrapper.BufferDecodeWrapper.constructor` | src/common/buffer/buffer_decode_wrapper.cpp:9-24 | starts with nothing staged, on the fast path exactly for at most one chunk, with null pointers exactly when nothing is readable then |
| `DecodeWrapper.BufferDecodeWrapper.DecodeVarint` | src/common/buffer/buffer_decode_wrapper.h:80-117 | on both paths and for both widths: success, value (its low 32 bits for the narrow form) and consumed length are those of decoding the flattened bytes, a failure stages nothing, and the buffer is not touched |
| `DecodeWrapper.BufferDecodeWrapper.DecodeFixedUint` | src/common/buffer/buffer_decode_wrapper.cpp:51-125 | the same for the 1, 2, 4 and 8 byte big-endian decoders, whose value `DecodeFixedIff` fixes |
| `DecodeWrapper.BufferDecodeWrapper.DecodeBytes` | src/common/buffer/buffer_decode_wrapper.cpp:127-156 | same bytes on both paths when enough is left, except that null pointers refuse even zero bytes; a failure consumes nothing on the fast path and everything left on the slow one |
| `DecodeWrapper.BufferDecodeWrapper.Flush` | src/common/buffer/buffer_decode_wrapper.cpp:32-40 | the buffer content becomes exactly the bytes not yet decoded |
| `DecodeWrapper.BufferDecodeWrapper.CancelDecode` | src/common/buffer/buffer_decode_wrapper.cpp:42-49 | undoes all staged progress; the buffer is not touched |
| `DecodeWrapper.BufferDecodeWrapper.Close` | src/common/buffer/buffer_decode_wrapper.cpp:26-30 | destruction commits staged progress unless the last act was a flush or a cancel |
| `DecodeWrapper.RunScript` | src/common/buffer/buffer_decode_wrapper.h:80-117 | any sequence of varint, fixed-width and byte decodes, flushes and cancels has the outcomes, staged progress and buffer content of the same sequence on the flattened bytes |
| `DecodeWrapper.RunWrapper` | src/common/buffer/buffer_decode_wrapper.cpp:9-49 | the same from construction to destruction, with what the destructor leaves in the buffer |
| `DecodeWrapper.NothingBeforeFlush` | src/common/buffer/buffer_decode_wrapper.cpp:32-40 | over any run without a flush the buffer keeps all its bytes |
| `DecodeWrapper.FlushCommits` | src/common/buffer/buffer_decode_wrapper.cpp:32-40 | a flush drops from the buffer exactly what was decoded and not cancelled since the last one |
| `DecodeWrapper.CancelUndoes` | src/common/buffer/buffer_decode_wrapper.cpp:42-49 | a cancel after any run without a flush leaves the wrapper where cancelling at once would have, and destruction then leaves the buffer whole |
| `DecodeWrapper.PathsAgree` | src/common/buffer/buffer_decode_wrapper.h:80-117 | without byte decodes the fast and the slow path never differ, flushes and cancels included |
| `DecodeWrapper.BytesAgreeIff` | src/common/buffer/buffer_decode_wrapper.cpp:127-156 | for a byte decode the paths agree on outcome and progress if and only if enough is left and the pointers are not null, or nothing is left and something is asked for |
| `DecodeWrapper.ZeroBytesWitness` | src/common/decode/decode.cpp:236-256 | zero bytes of an empty buffer are refused on the fast path and granted on the slow one |
| `DecodeWrapper.SegmentationIrrelevant` | src/common/buffer/buffer_decode_wrapper.h:80-117 | two buffers with the same bytes, however cut into chunks, have the same outcomes in every sequence of varint and fixed-width decodes, flushes and cancels, and end with the same bytes |
| `DecodeWrapper.AfterEncodings` | src/common/decode/decode.cpp:45-219 | after n decodes of a concatenation of varints and fixed-width numbers the encodings from the n-th on and the suffix are left |
| `DecodeWrapper.FirstOf` | src/common/decode/decode.cpp:45-219 | the next decode then yields the n-th value |
| `DecodeWrapper.EncodeWriteDecode` | src/common/buffer/multi_block_buffer.cpp:427-459 | varints, wide and narrow, and fixed-width numbers in any mixture, encoded, written through chunks of any size and decoded again all come back unchanged, and the buffer is empty afterwards |
| `FrozenSpans.BufferChunk.FreezeUpTo` | src/common/buffer/buffer_chunk.cpp:75-93 | one more freeze; the write floor rises to the clamped end and never falls |
| `FrozenSpans.BufferChunk.Unfreeze` | src/common/buffer/buffer_chunk.cpp:95-103 | one freeze fewer, none below zero; the floor drops to zero only with the last |
| `FrozenSpans.SingleBlockBuffer.Clear` | src/common/buffer/single_block_buffer.cpp:132-143 | both positions go to the write floor |
| `FrozenSpans.SingleBlockBuffer.MoveReadPt` | src/common/buffer/single_block_buffer.cpp:69-88 | advances by min(len, readable); emptied, both positions go to the write floor |
| `FrozenSpans.SingleBlockBuffer.Read` | src/common/buffer/single_block_buffer.cpp:376-400 | returns the first min(len, readable) bytes and moves as above |
| `FrozenSpans.SingleBlockBuffer.Write` | src/common/buffer/single_block_buffer.cpp:403-424 | writes min(len, room) bytes at the write position and changes no other byte |
| `FrozenSpans.SingleBlockBuffer.MoveWritePt` | src/common/buffer/single_block_buffer.cpp:298-316 | advances the write position by min(len, room) |
| `FrozenSpans.SpanTable.Take` | src/common/buffer/single_block_buffer.cpp:181-200 | invalid if and only if the span must be filled and too little is readable; else it starts at the read position, covers exactly the requested number of readable bytes (all for 0), cut to what is readable, and takes one freeze |
| `FrozenSpans.SpanTable.Pin` | src/common/buffer/shared_buffer_span.cpp:8-26 | constructing a span freezes up to its end and keeps one freeze per live span |
| `FrozenSpans.SpanTable.CopyConstruct` | src/common/buffer/shared_buffer_span.cpp:39-46 | the copy has the range and bytes of its source, and a live one takes a freeze of its own |
| `FrozenSpans.SpanTable.CopyAssign` | src/common/buffer/shared_buffer_span.cpp:48-64 | the target has the range and bytes of the source; it gave back its own freeze and took one; self-assignment changes nothing |
| `FrozenSpans.SpanTable.MoveConstruct` | src/common/buffer/shared_buffer_span.cpp:68-74 | the new span has the range and bytes of the source, which becomes invalid; the number of freezes stays |
| `FrozenSpans.SpanTable.MoveAssign` | src/common/buffer/shared_buffer_span.cpp:76-89 | the target has the range and bytes of the source, which becomes invalid; one freeze is given back if the target was live; self-assignment changes nothing |
| `FrozenSpans.SpanTable.Drop` | src/common/buffer/shared_buffer_span.cpp:31-35 | the span is gone and a live one gave back its freeze |
| `FrozenSpans.WriteAboveKeeps` | src/common/buffer/buffer_chunk.cpp:105-110 | memory changes at or above the write floor leave the bytes under every live span as they were taken |
| `FrozenSpans.UnpinKeeps` | src/common/buffer/buffer_chunk.cpp:95-103 | giving back one freeze keeps all other live spans below the floor |
| `FrozenSpans.ReplaySound` | src/common/buffer/shared_buffer_span.cpp:8-89 | in every state a run reaches, freezes = live spans, every live span ends at or below the floor and the floor at or below the write position, and the bytes under it are those handed out when it was taken, through all copies and moves |
| `FrozenSpans.ReplaySurvives` | src/common/buffer/buffer_chunk.cpp:75-110 | a live span that no step of a run touches is there at the end, over the same bytes |
| `FrozenSpans.Apply` | src/common/buffer/single_block_buffer.cpp:69-88 | one operation of the classes is one step of the replay, with its result |
| `FrozenSpans.RunSpans` | src/common/buffer/shared_buffer_span.cpp:8-89 | every run of writes, reads, pointer moves, clears and span operations ends in the state, and returns the counts and bytes, of its replay on values; live spans it does not touch keep their place and their bytes |
| `Url.DecodeEncode` | src/common/http/url.cpp:79-130 | decoding an encoded byte string gives it back |
| `Url.EncodeCharIs` | src/common/http/url.cpp:79-97 | letters, digits and `-_.~` stay, every other byte becomes `%` and two upper-case hex digits |
| `Url.EncodeConcat` | src/common/http/url.cpp:79-97 | encoding distributes over concatenation |
| `Url.DecodePieces` | src/common/http/url.cpp:100-130 | on every input: `+` becomes a space, any other character but `%` stays, `%` and two characters that read as a number become its low byte, and any other `%` stays |
| `Url.DecodeHexPair` | src/common/http/url.cpp:100-130 | two hex digits of either case after `%` give 16 times the first plus the second |
| `Url.ParseHexIs` | src/common/http/url.cpp:108-116 | which pairs of characters read as a number, and which number |
| `Url.DecodeConcat` | src/common/http/url.cpp:100-130 | decoding distributes over concatenation wherever no escape is cut |
| `Url.URLEncode` | src/common/http/url.cpp:79-97 | the loop computes the percent-coding, which `EncodeCharIs` and `EncodeConcat` fix |
| `Url.URLDecode` | src/common/http/url.cpp:100-130 | the index loop computes the decoding, malformed and truncated escapes included, which `DecodePieces` fixes |
| `Url.ParseQueryString` | src/common/http/url.cpp:133-171 | the find loop stores the parameters left to right into the given map |
| `Url.ParseOne` | src/common/http/url.cpp:141-168 | `k=v` maps the decoded key to the decoded value, a key alone to the empty string, and nothing to nothing |
| `Url.ParseConcat` | src/common/http/url.cpp:133-171 | parsing distributes over `&`, left to right |
| `Url.StoreEach` | src/common/http/url.cpp:141-168 | the find loop hands the parameters to the store left to right, the last one included, for any way of storing them |
| `Url.SerializeQueryString` | src/common/http/url.cpp:174-194 | the loop joins the parameters with `&` in the order the map is enumerated |
| `Url.SerializeIs` | src/common/http/url.cpp:174-194 | one more parameter adds `&` and its item |
| `Url.ItemIs` | src/common/http/url.cpp:186-189 | an item is the encoded key, then `=` and the encoded value unless that is empty |
| `Url.ParseInvertsSerializeIff` | src/common/http/url.cpp:133-194 | for every enumeration order, parsing a serialised map gives it back if and only if it does not give the empty key the empty value |
| `Url.ParseSerializedInto` | src/common/http/url.cpp:133-171 | parsed into a non-empty map, the serialised parameters override it |
| `Url.PathRoundTripIff` | src/common/http/url.cpp:209-243 | parsing a built path gives back path and query if and only if the path starts with `/` and has no `?` and the query does not give the empty key the empty value |
| `Url.BuildPathIs` | src/common/http/url.cpp:209-222 | the path with a leading `/`, then `?` and the serialised query unless there is none |
| `Url.ParsePathIs` | src/common/http/url.cpp:225-243 | the part before the first `?` is the path, the rest goes to the query parser; an empty text is refused |
| `Metrics.AddCounts` | src/common/metrics/metrics_registry.cpp:84-86 | adds position by position modulo 2^64 and leaves the rest |
| `Metrics.Merge` | src/common/metrics/metrics_registry.cpp:53-88 | after folding one storage into another every counter, bucket, sum and count is the sum of both modulo 2^64, whatever their lengths, and a histogram exists if it did in either |
| `Metrics.RecordKeeps` | src/common/metrics/metrics_registry.cpp:179-201 | a recorded event on one live thread adds to dead + live exactly what it contributes, cell by cell |
| `Metrics.ExitKeeps` | src/common/metrics/metrics_registry.cpp:45-89 | a thread exit moves its share to the dead accumulators and changes no total |
| `Metrics.Gather` | src/common/metrics/metrics_registry.cpp:91-166 | the collection loops yield dead + the sum over live threads in every cell |
| `Metrics.Registry.CounterInc` | src/common/metrics/metrics.cpp:44-49 | the history grows by exactly this increment; the invalid id is ignored |
| `Metrics.Bump` | src/common/metrics/metrics.cpp:72-92 | sum and count grow, and exactly the bucket of the first bound not below the value grows by one |
| `Metrics.Registry.HistogramObserve` | src/common/metrics/metrics.cpp:72-92 | recorded if and only if the id is a registered histogram |
| `Metrics.Registry.ThreadExit` | src/common/metrics/metrics_registry.cpp:45-89 | the thread is gone and the conservation invariant still holds |
| `Metrics.Registry.Collect` | src/common/metrics/metrics_registry.cpp:91-166 | every collected number is the tally of everything ever recorded, modulo 2^64: a counter the sum of its increments, a histogram sum the sum of its samples, a bucket the number of samples that fall in it; and a histogram is present if and only if it was ever observed |
| `Metrics.TallyIs` | src/common/metrics/metrics.cpp:44-92 | what the recorded events contribute to a counter is the sum of the increments, to a histogram the sum and the number of the samples |
| `Metrics.BucketTallyIs` | src/common/metrics/metrics.cpp:85-91 | and to a bucket the number of samples at or below its bound and above all earlier ones |
| `Metrics.LogTotals` | src/common/metrics/metrics.cpp:44-92 | for every run, those sums are the sums over the calls that were made |
| `Metrics.RunningTotals` | src/common/metrics/metrics.cpp:161-171 | line i is the sum of the first i + 1 bucket counts modulo 2^64 |
| `Metrics.ExportCorrectIff` | src/common/metrics/metrics.cpp:161-179 | the exported lines count the observations up to each bound, for every history, if and only if the bounds are nondecreasing |
| `Metrics.WrongLine` | src/common/metrics/metrics.cpp:72-92 | for every decreasing pair of bounds one observation makes the later line 1 where no observation is that small |
| `Metrics.ExportWrongLine` | src/common/metrics/metrics.cpp:161-179 | that wrong line, as a fresh registry exports it |
| `Metrics.Registry.ExportHistogram` | src/common/metrics/metrics.cpp:161-179 | present if and only if ever observed; line i is the number of observations that went to the first i + 1 buckets, which for nondecreasing bounds is the number at or below its bound, the last line and the count are the number of observations, and the sum is their sum, modulo 2^64 |
| `Metrics.RunRegistry` | src/common/metrics/metrics_registry.cpp:45-166 | for every run of registrations, records and thread exits, the final collection is the tally of the recorded events: every counter the sum of the increments made, every histogram sum the sum of the samples accepted; which threads recorded them does not appear in it |

## Left out

- Timer callbacks that re-enter the timer while it fires; repeat timers; the collision check of random ids (a fresh
  id is a precondition of `AddTimer`).
- The wheel's 32-bit task counter is unbounded here; the slot lists are sequences instead of arrays of vectors, so
  swap-with-scratch reuse of their storage is not captured.
- TimingWheel.TimingWheelTimer.AddTimer: a random id that collides with a pending one is excluded; the source would
  overwrite the location entry and leave the older timer unreachable for removal.
- TimingWheel.TimingWheelTimer.Tick: the time 2^64 - 1 is excluded, because the loop does not end there.
- TimingWheel.TimingWheelTimer.TimerRun: the same.
- WheelOrder.SweepLeads: which of two timers in different places runs first is stated for timers on time and within
  one revolution of their level; `NearIff` says that this is every on-time timer placed by a clock not ahead of the
  wheel. Two timers in one slot are covered in every state (`TogetherStep`).
- PoolAlloter.ListIndex: size 0 is excluded, because its index wraps around to 2^32 - 1.
- PoolAlloter.PoolAlloter.Malloc: size 0 is excluded for the same reason.
- Failure of `malloc`, in the pool allocator and under the block pool (which otherwise grows on demand, so that a
  chunk is always to be had); `MallocAlign`, `MallocZero`, and returning chunks when the pool dies.
- Chunk memory in `MultiBlock` is a value owned by one buffer: writes into chunks shared through `FromSpan` or partial
  span writes, and chunks that become invalid, are not modelled.
- MultiBlock.MultiBlockBuffer.CloneReadable: states the contents of both buffers, not that they share chunk memory.
- FrozenSpans.RunSpans: covers one buffer over one chunk, without changes of its capacity limit.
- The contiguous mode of `BufferReader`, and the `DecodeVarint` overload that also decrements a length.
- EventLoop.NoLostWakeup: safety over every interleaving; that a poster about to wake the loop is eventually
  scheduled is not part of the model, nor are memory ordering, sockets and the poll drivers.
- EventLoop.OnceInOrder: shutting the loop down with `ClearAllTimers`, which drops the tasks still queued, is not a
  step of the model; every task runs once as long as it is not called.
- Gauges, metric names, labels and deduplication by key, the switch that turns metrics off, and records made while a
  thread is being torn down; a metric operation is one atomic step.
- `ParseURLForPseudoHeaders` and `BuildAuthority`, which have no inverse to prove.
- Linked lists, thread-safe queues, the double buffer, the block memory pool, logging, qlog and address handling,
  which would add only easy members.
- The QUIC, HTTP/3 and upgrade layers above `common`.
