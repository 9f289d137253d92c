# DMA engine without fixed channels (`DmaOpOpAlg`)

This project models the DMA engine `DmaOpOpAlg` in Dafny and proves properties
of the model. The engine offers two kinds of transfer:

- **memcpy / memcpy_chain** copy memory as fast as alignment allows. Each
  access is the widest of 8, 4, 2 or 1 bytes that the source address is
  aligned to and that does not exceed the bytes remaining.
- **devcpy / devcpy_chain** are paced by a device. The engine registers an
  event under a request id. The device calls `req_transfer(id)` to set it.
  For every chunk, the engine waits for the event, clears it, and moves
  `min(chk_sz * acc_sz, remaining)` bytes in accesses of `acc_sz` bytes. After
  each access it advances the source and destination addresses only if
  `inc_src` / `inc_dst` ask for it. The id is removed when the transfer ends.

Structure (one module per concern):

- `op.dfy` (`Op`): the `MemCpy` and `DevCpy` descriptors.
- `mem.dfy` (`Memory`): the memory behind the engine's `mem` port. It follows
  the byte-addressed mock memory the unit tests bind to that port:
  - a read returns the 8 bytes at an address as one little-endian word;
  - a write stores the low `size` bytes of the word;
  - an address never written reads as 0.

  An `Access(src, dst, size)` is one read/write pair on the port.
  `Apply(m, accs)` is the memory after a sequence of pairs.
- `planner.dfy` (`Planner`): memcpy's width selection (`AccessWidth`), the
  pairs one memcpy issues (`Plan`), and the pairs of a memcpy chain
  (`ChainPlan`).
- `req.dfy` (`Requests`): the request-event table, a map from request id to
  whether its event is set, and `req_transfer` on it (`Signal`).
- `chunks.dfy` (`Chunks`): devcpy as values. A `Cursor` is the loop state of
  one descriptor. `ChunkAccesses` / `Advance` are one chunk. `ChunksLeft` is
  the chunks, hence the device requests, still needed. `CursorPlan` /
  `DevChainPlan` are every pair a descriptor or a chain issues, and
  `CursorChunks` / `ChainChunks` the same pairs grouped chunk by chunk.
  `ChunkPairs(cs, k)` is the pairs of the first k chunks of a chain.
- `pacing.dfy` (`Pacing`): the blocking event wait as a function `Pace` over a
  schedule of device events. A `Request` is one `req_transfer(id)` call. A
  `Resume` is one turn of the engine, which moves a chunk if the event is
  set.
- `engine.dfy` (`Engine`): the class `DmaEngine`, holding two things:
  - `port`: the record of every read/write pair issued on the `mem` port,
    in order;
  - `reqEvents`: the request-event table.

  Its methods are the source's loops, each proved against the functions
  above:
  - memcpy extends the record by exactly `Plan(src, dst, sz)`;
  - a devcpy chain extends it by exactly the pairs of the chunks the device
    paid for: `ChunkPairs(cs, k)`, with k the chain's chunks minus those `Pace`
    says are still owed. That is a prefix of `DevChainPlan`, and all of it when
    the transfer completes;
  - a devcpy chain completes exactly when `Pace` says the device's requests
    sufficed. devcpy is the same for one descriptor.

  What the recorded pairs do to memory is stated by lemmas over `Apply`
  (`MemcpyCopies`, `MemcpyFrame`, `ChainPlanSequential`, `DevCopies`).

`src & 0x7` is modelled as `src % 8`, and `& 0x3` / `& 0x1` of those low bits
as `% 4` / `% 2`. `LowBits` shows that these agree with `src % 4` and
`src % 2`, as Python's `&` does, negative numbers included.

Two points about access sizes, as the code has them:

- `acc_sz` is any `u8`. The test memory's write stores `size` bytes and writes
  zeros past the eighth byte (tests/unit/test_op_op_alg.py:76-81), because a
  read returns only 8 bytes. `PerformAt` states this.
- The chunk loop takes `acc_sz` off its counter per access
  (op_op_alg.py:97-105). So a transfer whose size `acc_sz` does not divide
  ends with an access that reads and writes past `sz`. `DevCopies` states the
  resulting copy length: `sz` rounded up to whole accesses (`RoundedUp`).

## Model

| member | source | states |
|---|---|---|
| Requests.Signal | src/org/zuspec/example/dma/impl/op_op_alg.py:21-24 | the table keeps its keys; a registered id's event becomes set; every other entry is unchanged |
| Requests.SignalUnknown | tests/unit/test_op_op_alg.py:612-624 | signalling an id that is not registered leaves the table exactly as it was (no error) |
| Requests.SignalIdempotent | src/org/zuspec/example/dma/impl/op_op_alg.py:23-24 | a second request before the event is cleared changes nothing |
| Engine.DmaEngine.constructor | src/org/zuspec/example/dma/impl/op_op_alg.py:15-19 | a new engine has issued no pair and has no request registered |
| Engine.DmaEngine.ReqTransfer | src/org/zuspec/example/dma/impl/op_op_alg.py:21-24 | the new table is `Signal(old table, id)` |
| Planner.AccessWidth | src/org/zuspec/example/dma/impl/op_op_alg.py:42-50 | the width is 1, 2, 4 or 8 and never exceeds the bytes remaining |
| Planner.WidthChoice | src/org/zuspec/example/dma/impl/op_op_alg.py:41-50 | the width is the widest of 8, 4, 2, 1 that the source address is aligned to and that fits in what remains: each chosen width is aligned, and each wider one is unaligned or too large |
| Planner.LowBits | src/org/zuspec/example/dma/impl/op_op_alg.py:42-47 | alignment to 4 and to 2 can be read off the low three bits of the source address |
| Planner.Plan | src/org/zuspec/example/dma/impl/op_op_alg.py:38-56 | memcpy issues no pair exactly when it copies 0 bytes; `PlanShape` and `MemcpyCopies` state what the pairs are |
| Planner.PlanShape | src/org/zuspec/example/dma/impl/op_op_alg.py:38-56 | memcpy's pairs move exactly n bytes, each starting where the previous ended at both source and destination, each 1, 2, 4 or 8 bytes wide and aligned at the source |
| Planner.MemcpyCopies | src/org/zuspec/example/dma/impl/op_op_alg.py:38-56 | for non-overlapping ranges, memcpy leaves dst..dst+n-1 equal to src..src+n-1 byte for byte, whatever the alignment, and changes nothing else |
| Planner.MemcpyFrame | src/org/zuspec/example/dma/impl/op_op_alg.py:52-56 | even with overlap, memcpy changes no address outside dst..dst+n-1 |
| Planner.AlignedPlan | src/org/zuspec/example/dma/impl/op_op_alg.py:43-44 | from an 8-aligned source, a multiple of 8 bytes is copied in n/8 accesses, all 8 bytes wide |
| Planner.UnalignedPlan | tests/unit/test_op_op_alg.py:317-340 | 11 bytes from 0x1001 to 0x2001 use exactly the pairs of widths 1, 2, 4, 4 at 0x1001, 0x1002, 0x1004, 0x1008 |
| Planner.PlanProgress | src/org/zuspec/example/dma/impl/op_op_alg.py:39-56 | one turn of memcpy's loop keeps "pairs issued, then pairs still to issue, make the whole plan" |
| Planner.ChainPlan | src/org/zuspec/example/dma/impl/op_op_alg.py:60-66 | a memcpy chain issues no pair exactly when every descriptor copies 0 bytes |
| Planner.ChainPlanSequential | src/org/zuspec/example/dma/impl/op_op_alg.py:60-66 | the pairs of a memcpy chain have the effect of one memcpy per descriptor, in list order |
| Engine.DmaEngine.Memcpy | src/org/zuspec/example/dma/impl/op_op_alg.py:26-58 | the port record grows by exactly memcpy's plan; a zero-length copy issues nothing |
| Engine.DmaEngine.MemcpyChain | src/org/zuspec/example/dma/impl/op_op_alg.py:60-66 | the port record grows by each descriptor's plan, in list order |
| Memory.Read | tests/unit/test_op_op_alg.py:66-74 | the port's read is a `u64`: the 8 bytes at the address as one little-endian word, below 2^64 |
| Memory.Write | tests/unit/test_op_op_alg.py:76-81 | definition only: byte i of the word goes to addr + i, for i < size; `PerformAt` states its effect byte by byte |
| Memory.Perform | tests/unit/test_op_op_alg.py:66-81 | definition only: one read at src, then a write of `size` bytes of that word at dst; `PerformAt` states its effect byte by byte |
| Memory.PerformAt | tests/unit/test_op_op_alg.py:66-81 | one pair writes byte i of the word read at src to dst+i for i < size (zero past the eighth byte) and leaves every other address as it was |
| Memory.WordByte | tests/unit/test_op_op_alg.py:66-81 | byte i of the word read is the byte stored at addr+i for i < 8, and zero beyond |
| Memory.ContiguousCopies | src/org/zuspec/example/dma/impl/op_op_alg.py:52-56 | pairs that each continue where the previous stopped copy their total length byte for byte between non-overlapping ranges |
| Memory.ContiguousFrame | src/org/zuspec/example/dma/impl/op_op_alg.py:52-56 | such pairs change nothing outside the destination range they cover |
| Chunks.Burst | src/org/zuspec/example/dma/impl/op_op_alg.py:97-105 | definition only: one pair of `acc_sz` bytes per access, each address advancing by `acc_sz` only if asked; `BurstLength` and `BurstAt` state its length and addresses |
| Chunks.ChunkLen | src/org/zuspec/example/dma/impl/op_op_alg.py:92-93 | the bytes of a chunk are at most both `chk_sz * acc_sz` and what remains, and equal one of the two |
| Chunks.Advance | src/org/zuspec/example/dma/impl/op_op_alg.py:92-109 | after a chunk the loop can still finish, and while bytes remain each chunk leaves strictly fewer |
| Chunks.ChunksLeft | src/org/zuspec/example/dma/impl/op_op_alg.py:86-109 | no chunk is left exactly when no byte is left; `ChunksLeftCover` and `ChunksLeftCeil` give the count |
| Chunks.AccessesCover | src/org/zuspec/example/dma/impl/op_op_alg.py:97-105 | the chunk loop makes the least number of accesses covering the chunk: ceil(bytes / acc_sz) |
| Chunks.BurstLength | src/org/zuspec/example/dma/impl/op_op_alg.py:97-105 | a chunk issues one pair per access |
| Chunks.BurstAt | src/org/zuspec/example/dma/impl/op_op_alg.py:97-105 | access j of a chunk is at j * acc_sz past src / dst for an address that advances and at src / dst for one that does not |
| Chunks.ChunksLeftCover | src/org/zuspec/example/dma/impl/op_op_alg.py:86-109 | the chunks a transfer needs are the least number whose full size covers the bytes left |
| Chunks.ChunksLeftCeil | src/org/zuspec/example/dma/impl/op_op_alg.py:86-109 | a transfer needs ceil(sz / (chk_sz * acc_sz)) chunks, hence that many requests |
| Chunks.WordChunks | src/org/zuspec/example/dma/impl/op_op_alg.py:92-93 | with one 8-byte access per chunk, n words take exactly n chunks |
| Chunks.CursorPlanUniform | src/org/zuspec/example/dma/impl/op_op_alg.py:86-109 | chunking does not change the pairs a devcpy issues: they are those of one chunk the size of the whole transfer |
| Chunks.DevAccesses | src/org/zuspec/example/dma/impl/op_op_alg.py:86-109 | a devcpy makes ceil(sz / acc_sz) accesses of acc_sz bytes; access j is at j * acc_sz past the start of an advancing address, at the start of a fixed one |
| Chunks.DevCopies | src/org/zuspec/example/dma/impl/op_op_alg.py:97-105 | with both addresses advancing and acc_sz <= 8, a devcpy over non-overlapping ranges copies sz rounded up to whole accesses, byte for byte |
| Chunks.MultiAccessChunk | tests/unit/test_op_op_alg.py:531-550 | 32 bytes in 8-byte accesses, 2 per chunk: two chunks of two consecutive words each |
| Chunks.TwoDescriptorChain | tests/unit/test_op_op_alg.py:587-592 | two 16-byte descriptors with one 8-byte access per chunk need four requests in all |
| Chunks.ChainCons | src/org/zuspec/example/dma/impl/op_op_alg.py:124-152 | a chain's requests, pairs and chunks are its first descriptor's followed by the rest's |
| Chunks.ChunkProgress | src/org/zuspec/example/dma/impl/op_op_alg.py:129-152 | one chunk leaves one request fewer and keeps "pairs issued, then pairs to come, make the descriptor's plan" |
| Memory.Apply | tests/unit/test_op_op_alg.py:66-81 | definition only: the memory after a sequence of pairs, performed in order; `ApplyAppend`, `ContiguousCopies`, `ChainPlanSequential` and `DevCopies` state its effect |
| Chunks.Accesses | src/org/zuspec/example/dma/impl/op_op_alg.py:97-105 | the inner loop makes no access exactly when the chunk has no byte; `AccessesCover` gives the count |
| Chunks.ChunkAccesses | src/org/zuspec/example/dma/impl/op_op_alg.py:97-105 | definition only: the pairs of one chunk, a burst of `ChunkLen` bytes; `CursorChunksPlan` and `CursorPlanUniform` state how chunks make up the transfer |
| Chunks.CursorPlan | src/org/zuspec/example/dma/impl/op_op_alg.py:86-109 | definition only: every pair one descriptor issues, chunk after chunk; `CursorPlanUniform` and `DevAccesses` state what they are |
| Chunks.CursorChunks | src/org/zuspec/example/dma/impl/op_op_alg.py:86-109 | the descriptor's pairs grouped by chunk: one group per chunk, hence per request |
| Chunks.CursorChunksPlan | src/org/zuspec/example/dma/impl/op_op_alg.py:86-109 | the chunks of a descriptor, in order, are exactly its pairs |
| Chunks.AdvanceBy | src/org/zuspec/example/dma/impl/op_op_alg.py:86-109 | the cursor after k chunks is still one the loop can finish |
| Chunks.AdvanceByChunks | src/org/zuspec/example/dma/impl/op_op_alg.py:86-109 | the cursor after k chunks has exactly the chunks after the k-th still to come |
| Chunks.TotalChunks | src/org/zuspec/example/dma/impl/op_op_alg.py:124-152 | definition only: the requests devcpy_chain needs, summed over its descriptors; `ChainCons` and `TwoDescriptorChain` state it |
| Chunks.DevChainPlan | src/org/zuspec/example/dma/impl/op_op_alg.py:124-152 | definition only: every pair a devcpy chain issues, descriptor after descriptor; `ChainCons` and `ChainChunksPlan` state it |
| Chunks.ChainChunks | src/org/zuspec/example/dma/impl/op_op_alg.py:124-152 | a chain's pairs grouped by chunk: one group per request the chain needs |
| Chunks.ChainChunksPlan | src/org/zuspec/example/dma/impl/op_op_alg.py:124-152 | the chunks of a chain, in order, are exactly its pairs |
| Chunks.ChunkPairs | src/org/zuspec/example/dma/impl/op_op_alg.py:124-152 | definition only: the pairs of the first k chunks of a chain, what the engine has issued once the device paid for k chunks; `ChunkPairsPlan` states it |
| Chunks.ChunkPairsPlan | src/org/zuspec/example/dma/impl/op_op_alg.py:124-152 | the pairs of the first k chunks followed by those of the rest are the whole chain; they are a prefix of it, and all of it when k is every chunk |
| Chunks.SingleChain | src/org/zuspec/example/dma/impl/op_op_alg.py:68-111 | a chain of one descriptor needs the requests, issues the pairs and has the chunks of that descriptor alone, as devcpy does |
| Pacing.Pace | src/org/zuspec/example/dma/impl/op_op_alg.py:87-89 | the chunks still owed never grow, whatever the schedule |
| Pacing.PaceNeedsRequests | src/org/zuspec/example/dma/impl/op_op_alg.py:86-89 | each chunk consumes one request: at most one chunk moves per req_transfer, plus one for an event already set |
| Pacing.DoneNeedsRequests | src/org/zuspec/example/dma/impl/op_op_alg.py:86-89 | a transfer of n chunks, started with a clear event, completes only after at least n requests |
| Pacing.PaceRounds | tests/unit/test_op_op_alg.py:443-464 | when the engine runs between requests, n chunks complete after exactly n requests, and k < n requests leave n - k chunks |
| Pacing.PaceCoalesces | src/org/zuspec/example/dma/impl/op_op_alg.py:88-89 | two requests before the engine's next turn count as one |
| Engine.DmaEngine.Move | src/org/zuspec/example/dma/impl/op_op_alg.py:99-100 | one read/write pair is appended to the port record, nothing else changes |
| Engine.DmaEngine.TransferChunk | src/org/zuspec/example/dma/impl/op_op_alg.py:91-109 | one chunk issues exactly the chunk's pairs and leaves the descriptor's state at `Advance(c)` |
| Engine.DmaEngine.Wait | src/org/zuspec/example/dma/impl/op_op_alg.py:87-89 | the wait returns on the first engine turn with the event set, consuming the schedule exactly as `Pace` does: that turn is a `Resume` at j-1, and before it the event was set with no chunk moved; with the schedule exhausted the engine is still waiting and nothing was paid for |
| Engine.DmaEngine.NextChunk | src/org/zuspec/example/dma/impl/op_op_alg.py:86-109 | wait, clear, move one chunk: the record and the cursor advance by the cursor's first chunk, the rest of its chunks still to come, or nothing happens and the schedule is exhausted |
| Engine.DmaEngine.RunChunks | src/org/zuspec/example/dma/impl/op_op_alg.py:129-152 | the chunk loop of one descriptor issues the pairs of its first k chunks, k those the device paid for, in order, and stands at the cursor advanced by k chunks; the requests owed drop as `Pace` says; it stops early only with the schedule exhausted |
| Engine.DmaEngine.RunDescriptor | src/org/zuspec/example/dma/impl/op_op_alg.py:124-152 | one descriptor of a chain leaves the chain with what is pending, in requests and in chunks: the chunks paid for, then the pending ones, are all the chain's chunks |
| Engine.DmaEngine.RunChain | src/org/zuspec/example/dma/impl/op_op_alg.py:123-152 | the descriptor loop issues the pairs of the chunks paid for, which followed by the pending chunks make all the chain's chunks; it stops early only when the schedule ends with requests still owed |
| Engine.DmaEngine.DevcpyChain | src/org/zuspec/example/dma/impl/op_op_alg.py:113-154 | completes exactly when the schedule's requests suffice for the chain's chunks; the record grows by exactly the pairs of the chunks paid for (`ChunkPairs` of the chain's chunks minus those `Pace` leaves owed), in order, and the pending `rest` has exactly the remaining chunks; on completion the id is unregistered and every pair of every descriptor was issued, otherwise the entry holds the event's state |
| Engine.DmaEngine.Devcpy | src/org/zuspec/example/dma/impl/op_op_alg.py:68-111 | completes exactly when the requests suffice for ceil(sz / (chk_sz * acc_sz)) chunks; the record grows by exactly the pairs of the chunks paid for, and the loop stands at the cursor advanced by those chunks, which still needs the requests owed; its pairs complete the burst; on completion the id is unregistered and the record grew by the whole burst |
| Pacing.PaceSnoc | src/org/zuspec/example/dma/impl/op_op_alg.py:87-89 | while the event has not let a chunk through, one more event sets it on a request, and on an engine turn lets one chunk through exactly when it is set |
| Engine.MultiAccessOneRequest | tests/unit/test_op_op_alg.py:531-550 | 32 bytes in 8-byte accesses, 2 per chunk, after one request and one engine turn: one chunk still owed, and the pairs issued are exactly the first two words |
| Engine.RunOutcome | src/org/zuspec/example/dma/impl/op_op_alg.py:86-111 | a chunk loop run from the start of the schedule stops finished exactly when `Pace` owes nothing, with the chunks paid for the first ones of the cursor, and its pairs complete the burst |
| Engine.RanExtend | src/org/zuspec/example/dma/impl/op_op_alg.py:129-152 | one more turn of the chunk loop adds the chunk it moved, if any, to those moved so far, and the cursor advances by one chunk for each |
| Engine.ChainStep | src/org/zuspec/example/dma/impl/op_op_alg.py:124-152 | after one descriptor's chunk loop, the chain owes the requests of what is pending, and the chunks paid for, then the pending ones, are still all of the chain's |

## Left out

- The memory lock `_mem_l`, and concurrency in general, are left out. The
  model runs one transfer at a time. So it does not capture accesses
  interleaving between concurrent transfers, or two transfers sharing a
  request id.
- Time, the memory port's delays, and the `pri` argument are left out. `pri`
  has no effect on the algorithm.
- Fixed-width wrap-around of `uptr`, `u32`, `u8` and `i32` values is not
  modelled. Addresses and sizes are unbounded integers.
- Failures raised by the memory port are not modelled. The memory is a total
  map.
- The memory behind the port is not state of the engine. The engine records
  the pairs it issues, and lemmas over `Memory.Apply` state what those pairs
  do to a byte-addressed memory.
- The blocking `ev.wait()` is replaced by a finite schedule of device
  requests and engine turns. A transfer still waiting when the schedule ends
  returns `done == false`, with its entry still registered. The source would
  go on waiting.
- Engine.DmaEngine.DevcpyChain: requires `acc_sz >= 1` and `chk_sz >= 1` of
  every descriptor with `sz > 0`. With `sz > 0` and either one zero, the
  source loops forever without moving a byte (op_op_alg.py:129-152). A
  descriptor with `sz == 0` is skipped whatever its sizes, and so it is here.
- Engine.DmaEngine.Devcpy: requires `acc_sz >= 1` and `chk_sz >= 1` when
  `sz > 0`, for the same reason (op_op_alg.py:86-109).
- An event object replaced by a later registration under the same id, and
  `del` of an id already removed by someone else (a `KeyError` in the
  source), are not modelled. The table entry stands for the event.
- Chunks.DevCopies: states the byte-for-byte copy only for advancing addresses
  and `acc_sz <= 8`. Fixed (FIFO-style) addresses are described by
  Chunks.DevAccesses instead.
