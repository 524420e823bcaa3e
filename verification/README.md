# A verified model of libudmaio's receive path

libudmaio reads data that an AXI DMA engine writes to memory in scatter-gather mode. This project
models that receive path in Dafny and proves what it is meant to guarantee, and where it does not.

**The protocol** (`Protocol*.dfy`). The DMA engine, the handler thread and the reader thread are a
transition system that interleaves at every register access, every byte copied and every queue
operation. The engine fills and completes the slot it owns, then raises an interrupt; the handler
acknowledges, scans, copies, releases, queues and re-arms; the reader pops. The theorems are about
every reachable state: exactly-once delivery in order, no lost interrupt, ownership of the
buffers, exact write-back, scans that amount to atomic looks at the ring, delivery of everything
complete under fair scheduling, no overlooked fault, and an exact criterion, in either mode, for
when the ring stalls.

**The methods** (`HwAccessor`, `Sgdma`, `ConcurrentQueue`, `AxiDma`, `DataHandler`). Classes with
the source's fields, updated in place over an array of bytes. Each method is proved against a
function over values: `TakePacket` and `TakeAll` (`Ring.dfy`) for one look at the ring, `DrainAll`
(`Drain.dfy`) for the drain loop, `Store` for memory writes, `PopResult` for the queue. `TakePacket`
and `TakeAll` are also what the interleaved scans of the protocol are shown to be equal to, and
`DrainAll` is what the protocol's handler does while the engine is quiet (`ProtocolRefines.dfy`), so
the steps of the protocol and the methods meet in the same functions.

**Descriptor memory** (`Words`, `Descriptor`). Packed descriptors as little-endian bytes at stride
0x40: what is written reads back, the chain is one cycle, and no status write disturbs it.

**Arithmetic** (`Binary32`, `FrameFormat`, `Lfsr`, `WordBits`, `LfsrCheck`, `LfsrStream`,
`LfsrMeaning`). Rounding to binary32
over real numbers (section 4.3.1 of IEEE 754-2019), the line size computed with it, the generator
as a bit recurrence, and the streaming check with its counters.

## What the engine is assumed to do

The engine follows the descriptor chain and touches a descriptor only while `cmplt` is clear, since
cyclic mode is off (src/UioAxiDmaIf.cpp:60, inc/udmaio/rdl/AxiDma.hpp:301). It publishes the status
before it raises `ioc_irq`, which it does for descriptors with EOF; interrupt bits are
write-1-to-clear (inc/udmaio/rdl/AxiDma.hpp:311). Errors can be raised at any time; that the engine
completes nothing after a fault (inc/udmaio/rdl/AxiDma.hpp:290-307) is assumed only by
`FaultStopsHandler`. The exactly-once
theorems assume a conforming producer: each packet starts with SOF, and no completed buffer is empty
or longer than a buffer. Nothing is assumed about how long packets are, unless a theorem says so.

## Where the code falls short of what one might expect

Each of these is a lemma with the exact condition.

- In packet mode the engine never completes the n+1st buffer of a packet (`LongPacketsNeverPass`). A
  ring that is full when the handler sleeps makes no more progress exactly if it holds no EOF or the
  handler is about to see a fault, whether or not the queue has room (`StallsIffPacketTooLong`);
  such a run exists for every ring (`OverlongPacketStalls`). In stream mode it stalls exactly if no
  completion interrupt is pending or due, or a fault is about to be seen
  (`StreamStallsIffUnnoticed`).
- A look moves past buffers that lack SOF without releasing them, also when it finds no packet or an
  empty buffer (`SkippedStayComplete`). Such a buffer keeps its status until a later look takes it,
  if one ever does (`HeldUntilTaken`), and a look takes it exactly if a packet starts in front of
  it in the window and has not ended before it (`LateIffBehindStart`). It is then delivered, late,
  as part of that packet; the ring need not be full (`LateTail`, `LateTailHappens`). On an unchanged
  ring a second look can do so only when the ring is full (`LookTwice`).
- The comment on `pop` says a timeout returns an empty element when it has elapsed; an item that
  arrives before the waiter has the mutex again is then left in the queue although the caller gets
  nothing. This happens for some schedule exactly for pops with a timeout (`TimedPopMayMissItem`).
- A full queue loses a block whose descriptors were already released (`DrainOfWellFormed`).
- The buffer length is cut to 26 bits, so it is right exactly below 2^26 (`InitBuffers`).
- Cutting a stream between beats changes the result of the LFSR check exactly for odd beat sizes
  from 3 on (`CutsAreFreeIff`). The all-ones seed makes the pattern constant (`StuckOnlyAtOnes`).
- `set_format` with the unknown pixel format throws after the dimensions changed (`SetFormatPix`).

## Model

| member | source | states |
|---|---|---|
| ProtocolTheorems.ExactlyOnce | src/DataHandlerAbstract.cpp:75-93 | in every reachable state, packets completed = read ++ queued ++ in the handler's hands ++ still in the ring, in order |
| ProtocolTheorems.ExactlyOnceStream | src/DataHandlerAbstract.cpp:75-93 | the same of bytes in stream mode |
| ProtocolTheorems.NoLostInterrupt | src/DataHandlerAbstract.cpp:48-96 | whenever the handler sleeps and a complete packet is at the head of the ring, an interrupt is pending or due |
| ProtocolFault.NoLostFault | src/DataHandlerAbstract.cpp:65-73 | with an engine fault, the handler has stopped, or the error interrupt is pending, or it was observed and is about to be acted on |
| ProtocolFault.FaultStopsHandler | src/DataHandlerAbstract.cpp:59-96 | in every run in which a handler able to step does so in the end, once the engine has halted on a fault the handler ends stopped, in either mode |
| ProtocolTheorems.OwnershipSafe | src/UioMemSgdma.cpp:122-213 | released <= handed out <= produced <= released + n; every buffer not released is intact; the engine's slot never holds one |
| ProtocolTheorems.WriteBackExact | src/UioMemSgdma.cpp:208-210 | writing back the cached status clears `cmplt` of the copied descriptor and nothing else, so no fresh completion is erased |
| ProtocolTheorems.StopsOnlyWithCause | src/DataHandlerAbstract.cpp:59-96 | with a conforming producer only an engine fault or a full queue stops the handler |
| ProtocolInvariant.StepKeeps | src/DataHandlerAbstract.cpp:48-96 | every step of engine, handler and reader keeps the invariant |
| ProtocolInvariant.AckKeeps | src/UioAxiDmaIf.cpp:89-102 | acknowledging clears exactly the observed completion and error bits, and keeps the invariant and every fault noticed |
| ProtocolInvariant.ReleaseKeeps | src/UioMemSgdma.cpp:208-210 | so does releasing one descriptor while the engine runs |
| ProtocolInvariant.PublishKeeps | inc/udmaio/rdl/AxiDma.hpp:301-312 | so does a completion by the engine at any moment |
| ProtocolProgress.ScanLinearises | src/UioMemSgdma.cpp:148-189 | a packet scan interleaved with completions takes what an atomic look takes at its last status read |
| ProtocolProgress.StreamScanLinearises | src/UioMemSgdma.cpp:122-146 | the same for the stream scan |
| ProtocolDelivery.DrainRun | src/DataHandlerAbstract.cpp:75-95 | once woken and with queue room, the handler alone drains the ring of every complete packet and re-arms; termination measure included |
| ProtocolLiveness.EventuallyDelivered | src/DataHandlerAbstract.cpp:48-96 | in every fair run without engine fault, however much the engine goes on producing, the packets complete at any moment end up read or queued, in order, or the queue overflows |
| ProtocolLiveness.FairRunExists | src/DataHandlerAbstract.cpp:98-110 | every ring has a fair run from a fresh start |
| ProtocolDelivery.CompletePacketsArrive | src/DataHandlerAbstract.cpp:48-96 | with a quiet engine and queue room, at most the due interrupt and then handler steps queue exactly all complete packets, in order |
| ProtocolStall.FullRingWakesHandler | src/DataHandlerAbstract.cpp:48-96 | if every n consecutive buffers contain an EOF, a full ring never meets a sleeping handler without a wake-up pending or due |
| ProtocolStall.HaltIsFinal | inc/udmaio/rdl/AxiDma.hpp:301 | if the engine halts with an error on a full ring, the handler stops with it and no buffer is ever completed again |
| ProtocolStall.StallsIffPacketTooLong | src/UioMemSgdma.cpp:148-213 | packet mode: a full ring with the handler asleep makes no more progress in any continuation iff it holds no EOF or a fault is about to be seen |
| ProtocolStall.StreamStallsIffUnnoticed | src/UioMemSgdma.cpp:122-146 | stream mode: iff no completion interrupt is pending or due, or a fault is about to be seen |
| ProtocolStall.LongPacketsNeverPass | src/UioMemSgdma.cpp:148-213 | in every reachable state of packet mode, no packet has gone on for more than n buffers |
| ProtocolStall.OverlongPacketStalls | src/UioMemSgdma.cpp:154-188 | for every ring size a run leads to such a stall |
| ProtocolStall.InvShaped | src/UioMemSgdma.cpp:70-89 | every reachable ring has the shape the refinement relies on |
| ProtocolRefines.ScanRun | src/UioMemSgdma.cpp:122-189 | with the engine quiet, the handler's scan steps end as one atomic look, for arbitrary flags and lengths, also where they throw |
| ProtocolRefines.RoundRun | src/UioMemSgdma.cpp:191-213 | the read, copy and write-back steps after it gather exactly the taken bytes and release exactly the taken descriptors |
| ProtocolRefines.DrainRuns | src/DataHandlerAbstract.cpp:80-92 | the handler's loop is `DrainAll`: same blocks queued, same statuses, read index and ending |
| ProtocolRefines.WakeUpRefines | src/DataHandlerAbstract.cpp:59-96 | one wake-up does what `HandleInput` promises: acknowledge, stop on a fault, drain if a completion was seen, re-arm unless thrown |
| Ring.SplitterTakesFirstPacket | src/UioMemSgdma.cpp:148-189 | on a well-formed run the splitter skips nothing and takes exactly the first packet |
| Ring.PacketsAppend | src/UioMemSgdma.cpp:148-189 | packets never straddle a closed boundary |
| Ring.PacketsJoin | src/UioMemSgdma.cpp:148-189 | the packets, joined, are the bytes of the longest EOF-terminated prefix |
| Ring.ModesAgree | src/UioMemSgdma.cpp:122-189 | stream mode drains what packet mode drains and then the unfinished tail |
| Sgdma.SplitterStops | src/UioMemSgdma.cpp:154-186 | where the source's scan stops, for arbitrary flags and lengths, the splitter has its answer |
| Sgdma.UioMemSgdma.GetNextPacket | src/UioMemSgdma.cpp:148-189 | the loop takes what the splitter takes from the window, throws on an empty buffer, and moves the index past what was dropped and taken |
| Sgdma.UioMemSgdma.GetFullBuffers | src/UioMemSgdma.cpp:122-146 | all completed buffers of the window; on an empty buffer it throws with the index already moved |
| Sgdma.UioMemSgdma.ReadBuffers | src/UioMemSgdma.cpp:191-213 | the stored bytes of the listed buffers, in order; afterwards exactly those descriptors are released, and no byte outside the ring's status words has changed |
| Sgdma.UioMemSgdma.TakeBuffer | src/UioMemSgdma.cpp:203-211 | the stored bytes at k * bufSize of the region are appended and the descriptor is released, no byte outside the ring's status words touched |
| Sgdma.UioMemSgdma.WriteCycMode | src/UioMemSgdma.cpp:42-68 | the descriptors form one chain with the given buffers, none complete, all else zero; fails iff they do not fit |
| Sgdma.UioMemSgdma.InitBuffers | src/UioMemSgdma.cpp:70-89 | buffer addresses one after the other, in 64 bits, without a check against the region: the ring is ready iff they fit; descriptor lengths right iff below 2^26 |
| Sgdma.DmaBuffer.AppendFromBuf | src/DmaBufferAbstract.cpp:16-23 | appends exactly the region's bytes |
| Sgdma.BuffersDisjoint | src/UioMemSgdma.cpp:78-85 | distinct buffers never overlap and lie in the region |
| Sgdma.AllWritten | src/UioMemSgdma.cpp:51-66 | written descriptor bytes are one chain with the buffers' addresses and lengths |
| Descriptor.StatusRoundTrip | inc/udmaio/UioMemSgdma.hpp:36-53 | the status struct and its 32-bit word determine each other |
| Descriptor.StatusBytes | inc/udmaio/UioMemSgdma.hpp:36-53 | in memory bytes: length, EOF, SOF, errors and completion of descriptor i are these bits of the bytes at i * 0x40 + 0x1c |
| Descriptor.FieldBytes | inc/udmaio/UioMemSgdma.hpp:55-63 | next pointer, address and length are the little-endian words at offsets 0, 8 and 0x18 |
| Descriptor.ClearCmpltWord | src/UioMemSgdma.cpp:209 | clearing `cmplt` clears the top bit of the word and no other |
| Descriptor.DescReadsBack | inc/udmaio/UioMemSgdma.hpp:55-67 | a written descriptor reads back field by field; reserved and application words, control flags and status are zero |
| Descriptor.StatusWriteFrame | inc/udmaio/RegAccessor.hpp:107-117 | a status write changes the four bytes of one status word and no other byte of the memory |
| Descriptor.FollowCycles | src/UioMemSgdma.cpp:51 | following `nxtdesc` k times from the first descriptor reaches base + (k mod n) * 0x40 |
| Descriptor.CycleForever | src/UioMemSgdma.cpp:42-68 | the cycle, all buffer addresses and lengths, and every other byte outside the status words survive any sequence of status writes |
| HwAccess.StoreReadsBack | inc/udmaio/HwAccessor.hpp:81-116 | read after write returns the value, all bytes outside the register stay |
| HwAccess.StoreNextPair | src/HwAccessor.cpp:36-40 | a 64-bit write made of two 32-bit writes extends what has landed as one native write does, also where the bounds check stops it |
| HwAccess.HwAccessor.Rd64 | src/HwAccessor.cpp:26-32 | native or emulated, the little-endian value of the 8 bytes |
| HwAccess.HwAccessor.Wr64 | src/HwAccessor.cpp:36-40 | native or emulated, the same memory |
| HwAccess.HwAccessor.RdMem32 | src/HwAccessor.cpp:42-47 | the 32-bit loop reads exactly the bytes |
| HwAccess.HwAccessor.RdMem64 | src/HwAccessor.cpp:49-54 | so does the 64-bit loop |
| HwAccess.HwAccessor.WrMem32 | src/HwAccessor.cpp:56-62 | the 32-bit loop leaves `Store`, also when it overflows half-way |
| HwAccess.HwAccessor.WrMem64 | src/HwAccessor.cpp:64-70 | so does the 64-bit loop, native or emulated |
| HwAccess.HwAccessor.RdReg | inc/udmaio/HwAccessor.hpp:82-94 | width dispatch does not change what is read |
| HwAccess.HwAccessor.WrReg | inc/udmaio/HwAccessor.hpp:104-116 | width dispatch does not change what is written |
| Draining.DrainOfWellFormed | src/DataHandlerAbstract.cpp:80-92 | a drain sends every complete packet of a well-formed window in order and leaves the tail; if the queue fills up the next block is lost, being neither queued nor in the ring |
| Draining.DrainModesAgree | src/DataHandlerAbstract.cpp:80-92 | from the same state the two modes send the same bytes but for the unfinished tail |
| Draining.DrainIsBounded | src/DataHandlerAbstract.cpp:80-92 | for arbitrary flags, at most as many blocks as completed descriptors; only `cmplt` flags are cleared |
| Draining.TakeFacts | src/UioMemSgdma.cpp:122-189 | a look takes only completed descriptors, so each non-empty round is progress |
| Draining.WindowAfterRelease | src/UioMemSgdma.cpp:138-139 | releasing the first e buffers leaves the rest of the window ahead, wherever the ring wraps |
| Skipping.SkippedStayComplete | src/UioMemSgdma.cpp:154-186 | whatever a look finds, the buffers it moves past before the SOF stay complete and the others are released; some are left behind iff the first buffer is neither SOF nor empty |
| Skipping.PacketIsSpan | src/UioMemSgdma.cpp:154-186 | for any flags, the packet taken is from the first SOF to the first EOF from there on, with no empty buffer up to it |
| Skipping.ThrowsIffEmptyFirst | src/UioMemSgdma.cpp:160-163 | a packet look throws iff the window holds an empty buffer and no packet ends before it |
| Skipping.StreamLookMeans | src/UioMemSgdma.cpp:122-146 | a stream look takes the whole window in order; with an empty buffer in it, it throws with the index at the first one |
| Skipping.TakenIffInSpan | src/UioMemSgdma.cpp:154-186 | a look takes a buffer of the window iff it lies in that span |
| Skipping.LateIffBehindStart | src/UioMemSgdma.cpp:164-169 | so a buffer without SOF, once passed over, is delivered later iff it lies behind the start of a packet that reaches it |
| Skipping.HeldUntilTaken | src/UioMemSgdma.cpp:164-169 | over any run of looks and completions, a completed descriptor keeps its status iff no look takes it |
| Skipping.LateTail | src/UioMemSgdma.cpp:164-186 | on every ring of three or more that is not full, a wrapping packet is completed by an old EOF buffer at the start of the ring |
| Skipping.LateTailHappens | src/UioMemSgdma.cpp:164-186 | a concrete run that gets there from a buffer passed over, delivers it and gives it back |
| Skipping.LookTwice | src/UioMemSgdma.cpp:164-169 | special case of an unchanged ring: after a look that found nothing, a second look finds a packet iff the ring is full, an SOF was seen and an EOF is among the skipped buffers |
| DataHandler.DataHandlerSync.Receive | src/DataHandlerAbstract.cpp:81-88 | one round of the loop is one look, its bytes and its release |
| DataHandler.DataHandlerSync.Drain | src/DataHandlerAbstract.cpp:80-92 | the loop is `DrainAll`, for arbitrary flags and lengths, with exceptions and queue overflow |
| DataHandler.DataHandlerSync.HandleInput | src/DataHandlerAbstract.cpp:59-96 | acknowledge, error check, drain only if completion was seen; armed afterwards iff nothing was thrown; whole new state |
| DataHandler.DataHandlerSync.ProcessData | src/DataHandlerSync.cpp:26-28 | appends the block or, when the queue is full, fails without effect |
| DataHandler.DataHandlerSync.Read | src/DataHandlerSync.cpp:35-41 | the reader gets what a pop of the queue gives under the given schedule |
| DataHandler.DataHandlerSync.Stop | src/DataHandlerSync.cpp:30-33 | the abort flag is set, the queued blocks stay |
| Queue.FifoOrder | inc/udmaio/ConcurrentQueue.hpp:30-68 | for any interleaving: contents ++ accepted = taken ++ left, and the bound holds |
| Queue.ConcurrentQueue.Push | inc/udmaio/ConcurrentQueue.hpp:53-62 | refused without effect exactly when full |
| Queue.ConcurrentQueue.Pop | inc/udmaio/ConcurrentQueue.hpp:30-49 | for any schedule of the others: the front item at the moment of taking, or empty-handed only on abort of an empty queue or on timeout |
| Queue.ConcurrentQueue.AbortConsumers | inc/udmaio/ConcurrentQueue.hpp:65-68 | the abort flag is set, the items stay |
| Queue.NoPopBlocksAfterAbort | inc/udmaio/ConcurrentQueue.hpp:30-49 | after an abort no pop blocks, nor one that wakes up once another thread has aborted meanwhile |
| Queue.EmptyHandedMeansAborted | inc/udmaio/ConcurrentQueue.hpp:30-49 | without a timeout, empty-handed only from an empty, aborted queue: what was queued before an abort is delivered first |
| Queue.TimedPopMayMissItem | inc/udmaio/ConcurrentQueue.hpp:36-39 | a pop can come back empty-handed and leave items iff it has a timeout |
| AxiDma.PointerRoundTrip | src/UioAxiDmaIf.cpp:50-87 | what `start` writes `get_curr_desc` reads back, up to the low six bits; exact iff aligned to 64 bytes |
| AxiDma.RingPointersRoundTrip | src/UioAxiDmaIf.cpp:50-87 | exact for every descriptor of an aligned ring, over full 64-bit addresses |
| AxiDma.Acknowledged | src/UioAxiDmaIf.cpp:99 | writing the seen bits back clears those and keeps what was raised since |
| AxiDma.UioAxiDmaIf.Start | src/UioAxiDmaIf.cpp:43-76 | the registers hold bits 31 to 6 and the upper word of the address, the tail 0x40 in the same 4 GiB; run bit, interrupt enables, cyclic mode off |
| AxiDma.UioAxiDmaIf.GetCurrDesc | src/UioAxiDmaIf.cpp:78-87 | a 64-byte boundary whose bits 31 to 6 and upper word are the registers; whichever address they were set from comes back, down to its boundary |
| AxiDma.UioAxiDmaIf.ClearInterrupt | src/UioAxiDmaIf.cpp:89-102 | returns what was seen and clears exactly that; disarms |
| AxiDma.UioAxiDmaIf.CheckForErrors | src/UioAxiDmaIf.cpp:104-147 | false iff clearing the six error bits changes nothing; halted and idle are no errors |
| Binary32.RoundIsNearest | src/FrameFormat.cpp:187 | no binary32 number is nearer than the result of rounding |
| Binary32.RoundIsBinary32 | src/FrameFormat.cpp:187 | the result is a binary32 number |
| Binary32.TiesToEven | src/FrameFormat.cpp:187 | half-way between two multiples of the rounding unit the even one is taken |
| Binary32.IntegersExact | src/FrameFormat.cpp:187 | integers below 2^24 are exact |
| Binary32.RoundedCeil | src/FrameFormat.cpp:187 | for all 16-bit widths and 8-bit divisors the ceiling of the rounded quotient is the integer ceiling |
| Frames.FormatBppIs | src/FrameFormat.cpp:181 | the pixel size is the third byte of the format divided by eight |
| Frames.SomeFormats | inc/udmaio/FrameFormat.hpp:36-70 | one, two, three and four bytes for Mono8, Mono10, RGB8 and RGBa8 |
| Frames.FrameFormat.UpdateHsize | src/FrameFormat.cpp:185-188 | computed in binary32, the line size is exactly the integer one |
| Frames.LineSizeMeaning | src/FrameFormat.cpp:185-188 | the line size is the least number of whole words that hold the line in whole pixels per word, and at least width * bpp |
| Frames.FrameFormat.constructor | src/FrameFormat.cpp:89-95 | the initial derived fields agree |
| Frames.FrameFormat.SetFormatBytes | src/FrameFormat.cpp:97-102 | derived fields agree with the new inputs |
| Frames.FrameFormat.SetFormatPix | src/FrameFormat.cpp:108-113 | the same; for the unknown format it throws with the dimensions changed, and the fields still agree iff the line size is the same |
| Frames.FrameFormat.SetDim | src/FrameFormat.cpp:115-118 | derived fields agree |
| Frames.FrameFormat.SetBpp | src/FrameFormat.cpp:120-123 | derived fields agree |
| Frames.FrameFormat.SetPixFmt | src/FrameFormat.cpp:125-128 | derived fields agree, or it throws without effect |
| Frames.FrameFormat.SetWordWidth | src/FrameFormat.cpp:130-133 | derived fields agree |
| Frames.FrameFormat.GetFrmSize | src/FrameFormat.cpp:163-165 | at least width * height * bpp |
| Lfsr.TapsAre | example/demo_cpp/inc/AxiTrafficGenLfsr.hpp:26 | 0 is followed by 0x8000, and flipping one bit flips the new top bit iff it is bit 0, 1, 3 or 12 |
| Lfsr.Window | example/demo_cpp/inc/AxiTrafficGenLfsr.hpp:25-30 | after k steps the state is the 16-bit window at k of the sequence in which b(t+16) is set iff an even number of b(t), b(t+1), b(t+3), b(t+12) are |
| Lfsr.WindowDetermines | example/demo_cpp/inc/AxiTrafficGenLfsr.hpp:25-30 | a state is the one after k steps iff its bits are that window |
| Lfsr.NeverMerge | example/demo_cpp/inc/AxiTrafficGenLfsr.hpp:25-30 | k steps lead to the same state iff the seeds are the same |
| Lfsr.StuckOnlyAtOnes | example/demo_cpp/inc/AxiTrafficGenLfsr.hpp:25-30 | the pattern is constant iff the seed is all ones |
| Lfsr.AxiTrafficGenLfsr.Advance | example/demo_cpp/inc/AxiTrafficGenLfsr.hpp:25-30 | every bit moves down by one, and the top bit is set iff an even number of bits 0, 1, 3 and 12 were |
| StreamCheck.DataHandlerPrint.CheckBeat | example/demo_cpp/src/DataHandlerPrint.cpp:50-61 | the inner loop counts words up to the first unexpected one |
| StreamCheck.DataHandlerPrint.ProcessData | example/demo_cpp/src/DataHandlerPrint.cpp:31-74 | the nested loops with early exit are the closed form over the longest matching prefix |
| StreamMeaning.CheckMeaning | example/demo_cpp/src/DataHandlerPrint.cpp:31-74 | over bytes: ok counts the words that fit the pattern up to the first that does not, total one more if there is one; it stops there, or iff the expected bytes have come in |
| StreamMeaning.StopsExactly | example/demo_cpp/src/DataHandlerPrint.cpp:52-73 | over any run of calls all bytes are counted as received, and the check has stopped iff a word mismatched or the expected number has come in |
| StreamMeaning.FitsIffExpected | example/demo_cpp/src/DataHandlerPrint.cpp:40-53 | the word at bytes 2i and 2i+1 is the expected one iff its 16 bits are the pattern's from its beat on |
| WordBits.BitOfParts | example/demo_cpp/src/DataHandlerPrint.cpp:40 | the bits of a two-byte word are those of its low byte and then of its high byte |
| StreamTheorems.ProcessSplits | example/demo_cpp/src/DataHandlerPrint.cpp:47-63 | feeding whole is feeding in two parts, unless the first mismatches |
| StreamTheorems.ChunkingIndependence | example/demo_cpp/src/DataHandlerPrint.cpp:31-74 | any cut into calls of whole beats gives the same counters, generator and stop decision up to the first mismatch |
| StreamTheorems.CutsAreFreeIff | example/demo_cpp/src/DataHandlerPrint.cpp:47-63 | cuts between beats make no difference iff the beat size is even or one |
| StreamTheorems.CountersCountMismatches | example/demo_cpp/src/DataHandlerPrint.cpp:52-59 | over all runs total - ok is the number of calls that hit a mismatch |
| StreamTheorems.AcceptsExactlyThePattern | example/demo_cpp/src/DataHandlerPrint.cpp:31-74 | counters end equal iff the stream, bit for bit, is the pattern of the seed in its first word |

## Left out

- I/O plumbing: opening, mapping and seeking device files, sysfs, regex device discovery, bulk access; a DMA buffer is an array of bytes with a base address.
- Boost asio, logging, thread priorities, pybind11 and numpy: the event loop is "a handler step is enabled when armed and an interrupt is pending".
- `DataHandlerPython`: two callers of the modelled methods; use of `numpy_read_nb` at the same time as the handler thread is excluded, there is one consumer.
- Wake-up liveness of `abort`: the flag is set outside the mutex and one waiter is notified, so "every blocked consumer wakes" is not claimed.
- Engine internals: bursts, the delay timer, interrupt thresholds above one and pausing at the tail; the tail address is taken to lie off the ring. Halting on a completed descriptor appears as the engine not being enabled; the error it raises is one of the errors that may be raised at any time.
- The video DMA, GPIO and traffic generator interfaces and the register headers: straight-line register writes.
- The pixel-format name table and printing, the Python register class.
- Counters of 64 bits in the LFSR check and the 32-bit beat counter of one call are unbounded here; they differ from 2^32 beats in a call or 2^64 bytes on.
- ProtocolDelivery.CompletePacketsArrive: one continuation, with a quiet engine; `EventuallyDelivered` covers all fair runs.
- ProtocolStall.FullRingWakesHandler: takes the engine to wait at a completed descriptor; what follows if it halts with an error instead is `HaltIsFinal`.
- ProtocolLiveness.EventuallyDelivered: assumes that a handler able to step does so eventually, and that a due interrupt is raised eventually; packet mode.
- ProtocolFault.FaultStopsHandler: while the engine goes on completing packets, the loop of the source need not come back to the error; the theorem is about an engine that has halted.
- Skipping.LookTwice: only the unchanged ring; the other members of `Skipping` cover rings on which the engine goes on.
- HwAccess.HwAccessor.RdReg: a native mapping has no bounds check, so its callers must stay inside; the bounds-checked memory reports an error instead. Memories are smaller than 4 GiB, and a partly read register is discarded on failure.
- HwAccess.HwAccessor.WrReg: the same for writes.
- Sgdma.UioMemSgdma.ReadBuffers: requires that the engine stores no more than a buffer holds, and sees a quiet memory; the interleaved reads, copies and write-backs are in the protocol.
- Sgdma.UioMemSgdma.InitBuffers: the padding of a descriptor, indeterminate in the source, is an argument; at most 1024 descriptors, as the accessors assert.
- DataHandler.DataHandlerSync.HandleInput: the engine is quiet but for interrupts raised between the status read and the acknowledgement; the protocol covers completions at every access, and `WakeUpRefines` is where the two meet.
- DataHandler.DataHandlerSync.Stop: stopping the event loop.
- Queue.ConcurrentQueue.Pop: the other threads' critical sections and the timeouts during each wait are an argument; a pop that outlasts the schedule is reported as blocked. Items are copied, not moved.
- AxiDma.UioAxiDmaIf.Start: what the control register reads after the reset is an argument; 32-bit and 64-bit pointers are one flag.
- Frames.FrameFormat.UpdateHsize: requires 1 <= bpp <= word width and a result below 2^16, where the source's divisions and its conversion to 16 bits are defined.
- Frames.FrameFormat.GetFrmSize: requires that the product fits an int.
- StreamCheck.DataHandlerPrint.ProcessData: a single byte as the very first data, for which the source reads its seed out of bounds, and beats of zero bytes are excluded.
- Methods that are part of a longer one in the source: `PlaceBuffers`, `RdStatuses`, `TakeBuffer`, `Receive`, `Drain`, `CheckBeat`, `CheckBeats`.
