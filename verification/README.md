# Audio transport of the headset SDK

A Dafny model of the code that cuts, queues, moves between cores and reassembles audio streams, and
proofs of what it promises over whole runs.

| files | what they model |
|---|---|
| `Ring`, `CQueue` | circular windows; the byte queue as a bounded FIFO over an array |
| `Framing`, `A2dpCache`, `SpscRing`, `A2dpTransport` | the two-core A2DP path: framing, the wrap-around cache as code, the same ring as interleaved atomic steps with stale positions, and the path end to end |
| `LhdcAssembler`, `LhdcChain` | reassembly of fragmented LHDC packets over a lossy link, and LHDC end to end |
| `DecodeSlots` | the three PCM slots between coprocessor and MCU |
| `NumberTheory`, `Reframer`, `ReframerRun` | the SCO reframer as code, and its runs with a lagging worker |
| `MsbcPacket`, `MsbcDeframer`, `MsbcStream` | mSBC packetizer, deframer, and the stream from one to the other |
| `PacketLoss`, `SeqCounter`, `MsbcChain` | the two loss detectors, and the receive chain end to end |
| `FirUpsampler` | the polyphase FIR filter |
| `Crc8`, `ScanTable`, `Pairing` | speaker pairing: CRC, scan candidates, roles |
| `CpHandshake` | the one-frame handshake of the speech chain |
| `RpcQueue`, `RpcTransport` | the RPC message queue and its sender thread |

Code that updates state is a class or a method with loops, proved against a function of the old state;
code that runs on two cores or threads is a state machine over atomic steps, quantified over every
interleaving. The properties are lemmas about those functions and machines.

Where the code does not keep what one might expect of it, the exact condition is proved:

- `DecodeSlots.LostIff`: the MCU looks twice at a slot's state, and a block the coprocessor closes in between is given
  back unplayed; `MissCanHappen` is such a run.
- `DecodeSlots.RetryLeavesSlotIff`: a decode attempt resumed in the middle of a block is given room for a whole one.
- `RpcTransport.CommandHalts`: commands with 511 or 512 data bytes are accepted and then trip the sender's length
  assertion, which counts the two code bytes.
- `RpcQueue.PushKeepsFramingIff`: the length is cut to 16 bits, the payload is not; `LongBlockCutShort` is an input.
- `PacketLoss.IntactPassesIff`: a stray padding byte equal to the mute pattern can fail an intact packet.
- `FirUpsampler.SampleBound8k`: full-scale input can wrap the accumulator.
- `LhdcAssembler.ExactlyNoticedGaps`: packets are delivered as they arrived exactly when no gap in the datagrams is a
  multiple of 256; `UnnoticedGapSplices` gives the packets that such a gap splices.
- `LhdcChain.FrameableIff`: reassembled packets of 4089 to 4095 bytes do not fit behind their header.
- `Crc8.NineBitsMissed`: errors of nine bits can go unnoticed.

## Model

| member | source | states |
|---|---|---|
| `CQueue.ByteQueue.Enqueue` | utils/cqueue/cqueue.c:69-97 | a block is appended whole, or refused with the queue untouched, exactly when it does not fit; queued bytes do not move |
| `CQueue.ByteQueue.Reserve` | utils/cqueue/cqueue.c:69-97 | with a null source: the queue grows by whatever the buffer holds, and what was queued stays in front |
| `CQueue.ByteQueue.Dequeue` | utils/cqueue/cqueue.c:326-363 | the front of the queue leaves it, in order, exactly when enough is queued |
| `CQueue.ByteQueue.Skip` | utils/cqueue/cqueue.c:326-363 | the same with a null destination |
| `CQueue.ByteQueue.Peek` | utils/cqueue/cqueue.c:372-396 | fails exactly when too little is queued; else two segments whose lengths add up and whose bytes are the front of the queue |
| `CQueue.ByteQueue.Available` | utils/cqueue/cqueue.c:62-65 | the capacity less what is queued |
| `Framing.AacRoundTrip` | apps/audioplayers/a2dpplay.cpp:662-672 | cp_load_aac_frame's parse undoes the framing for exactly the frames shorter than 2048 bytes |
| `Framing.AacPartial` | apps/audioplayers/a2dpplay.cpp:2186-2246 | a partial frame is waited for, never taken for a bad header |
| `Framing.AacLayout` | apps/audioplayers/a2dpplay.cpp:662-672 | the length in two bytes, low byte first, then the frame |
| `Framing.LhdcRoundTrip` | apps/audioplayers/a2dpplay.cpp:637-653 | a framed packet behind junk is found and taken whole exactly when no tag shows up earlier |
| `Framing.LhdcPartial` | apps/audioplayers/a2dpplay.cpp:2114-2181 | a partial packet is waited for |
| `Framing.LhdcLayout` | apps/audioplayers/a2dpplay.cpp:645-649 | the letters lhdc, the length in four bytes, low byte first, then the packet |
| `Framing.SearchTag` | apps/audioplayers/a2dpplay.cpp:2141-2154 | the search never skips past a tag and stops where no header fits any more |
| `A2dpCache.DataLen` | apps/audioplayers/a2dpplay.cpp:2300-2311 | the byte count that takes the read position to the write position, never the whole ring |
| `A2dpCache.FreeLen` | apps/audioplayers/a2dpplay.cpp:2590-2600 | one byte always stays free |
| `A2dpCache.BetweenStale` | apps/audioplayers/a2dpplay.cpp:2300-2311 | a stale write position shows a prefix of what is there |
| `A2dpCache.BetweenStore` | apps/audioplayers/a2dpplay.cpp:2620-2664 | a block stored in the free room, straddling the end or not, is appended and touches no unread byte |
| `A2dpCache.BetweenTake` | apps/audioplayers/a2dpplay.cpp:2314-2339 | bytes read on a stale position, and what is left once they are released |
| `A2dpCache.AacReadSize` | apps/audioplayers/a2dpplay.cpp:2208-2225 | the least of 64, 128, ..., 2048 above the frame length |
| `A2dpCache.InCache.McuLoad` | apps/audioplayers/a2dpplay.cpp:2581-2671 | with a stale read position: as many bytes as it sees room for leave the queue and are appended, and no unread byte changes |
| `A2dpCache.InCache.CopySegments` | apps/audioplayers/a2dpplay.cpp:2620-2662 | the copies, each of two segments perhaps straddling the end, are one circular store |
| `A2dpCache.InCache.GetData` | apps/audioplayers/a2dpplay.cpp:2314-2327 | the bytes from a position on, across the wrap |
| `A2dpCache.InCache.CpLoadAac` | apps/audioplayers/a2dpplay.cpp:2186-2246 | returns what the parser makes of the bytes seen, and releases exactly the frame taken, nothing otherwise |
| `A2dpCache.InCache.CpLoadLhdc` | apps/audioplayers/a2dpplay.cpp:2114-2181 | the same for LHDC; the shared position is untouched when the packet is incomplete; a payload taken is at most 4088 bytes |
| `A2dpCache.InCache.FindTag` | apps/audioplayers/a2dpplay.cpp:2138-2154 | the ring search finds the position the search on the byte sequence finds |
| `A2dpCache.InCache.TakePacket` | apps/audioplayers/a2dpplay.cpp:2160-2170 | payload copied and position released across the wrap |
| `SpscRing.StepKeeps` | apps/audioplayers/a2dpplay.cpp:2581-2671 | every atomic step of producer and consumer, on stale copies of each other's position, keeps: sent = taken + cache + queue |
| `SpscRing.CopyByteFrame` | apps/audioplayers/a2dpplay.cpp:2620-2662 | a byte being copied in is behind the published data and the bytes copied before it |
| `SpscRing.PublishFifo` | apps/audioplayers/a2dpplay.cpp:2664-2668 | moving the write position hands over exactly the bytes copied |
| `SpscRing.ReleaseFifo` | apps/audioplayers/a2dpplay.cpp:2330-2339 | moving the read position consumes exactly the bytes read |
| `SpscRing.RingRefinesFifo` | apps/audioplayers/a2dpplay.cpp:2300-2339 | from the empty cache, in every interleaving: nothing lost, duplicated or reordered; one byte stays free |
| `SpscRing.ViewIsStable` | apps/audioplayers/a2dpplay.cpp:2314-2327 | while the consumer holds its snapshot nobody changes a byte it may read |
| `SpscRing.PeekedIsStable` | apps/audioplayers/a2dpplay.cpp:2611-2664 | while the producer copies, nobody changes the block it peeked or its position |
| `SpscRing.LoadRun` | apps/audioplayers/a2dpplay.cpp:2581-2671 | an undisturbed load moves everything it sees room for |
| `A2dpTransport.ParseView` | apps/audioplayers/a2dpplay.cpp:2114-2246 | on any prefix of a framed stream a load returns the first frame whole, or waits |
| `A2dpTransport.LoadOutcome` | apps/audioplayers/a2dpplay.cpp:2186-2246 | in every reachable state a load returns the next accepted frame exactly when all of it is in view |
| `A2dpTransport.ActKeeps` | apps/audioplayers/a2dpplay.cpp:2581-2671 | offers, MCU steps and loads keep: what was sent frames the accepted, what was taken frames the delivered |
| `A2dpTransport.OnItsWay` | apps/audioplayers/a2dpplay.cpp:637-672 | cache and queue hold exactly the framed bytes of the frames not yet delivered |
| `A2dpTransport.DeliveredAreAccepted` | apps/audioplayers/a2dpplay.cpp:662-672 | end to end in every interleaving: the frames delivered are the first of those accepted, in order, byte for byte; the bad-header branch is never taken |
| `A2dpTransport.OversizeIsBad` | apps/audioplayers/a2dpplay.cpp:2218-2222 | an AAC frame of 2048 bytes or more takes the bad-header branch |
| `A2dpTransport.NextFrameFits` | apps/audioplayers/a2dpplay.cpp:2581-2671 | after an undisturbed load the next frame is in the cache whole |
| `A2dpTransport.NeverStuck` | apps/audioplayers/a2dpplay.cpp:2581-2671 | a partial frame never blocks the producer: one load of each core delivers the next frame |
| `A2dpTransport.OfferTakenIff` | apps/audioplayers/a2dpplay.cpp:655-672 | a frame is queued whole behind all others exactly when it is not an empty LHDC packet and there is room for it with its 2 or 8 bytes of header; else nothing changes |
| `A2dpTransport.FittingAreAccepted` | apps/audioplayers/a2dpplay.cpp:655-672 | in every run whose frames with their headers fit the capacity together, every frame offered is accepted, in order |
| `A2dpTransport.LoadDelivers` | apps/audioplayers/a2dpplay.cpp:2186-2246 | a load hands out the next undelivered frame exactly when all its bytes are in view, and nothing else changes hands |
| `LhdcAssembler.Assembler.constructor` | apps/audioplayers/a2dpplay.cpp:1664-1670 | the initial state |
| `LhdcAssembler.Assembler.ResetAssembly` | apps/audioplayers/a2dpplay.cpp:1656-1662 | unsynchronized, waiting for a start, buffer empty |
| `LhdcAssembler.Assembler.CollectInto` | apps/audioplayers/a2dpplay.cpp:1785-1864 | the state switch: buffer, status and result are those of the specification |
| `LhdcAssembler.Assembler.AssembleInto` | apps/audioplayers/a2dpplay.cpp:1751-1865 | one datagram; waiting for a start means an empty buffer before and after |
| `LhdcAssembler.OneFragment` | apps/audioplayers/a2dpplay.cpp:1751-1865 | over a lossy link: a packet comes out exactly with the last fragment of one that arrived complete and fits |
| `LhdcAssembler.OnePacket` | apps/audioplayers/a2dpplay.cpp:1751-1865 | the same for all fragments of a packet |
| `LhdcAssembler.StrayFragment` | apps/audioplayers/a2dpplay.cpp:1768-1783 | out of step nothing but a start is taken |
| `LhdcAssembler.DeliversExactlyComplete` | apps/audioplayers/a2dpplay.cpp:1751-1865 | when no gap is a positive multiple of 256: exactly the complete packets that fit are delivered, once each, in order, byte for byte |
| `LhdcAssembler.UnnoticedGapSplices` | apps/audioplayers/a2dpplay.cpp:1768-1783 | for every other link there are packets from which one comes out that was never sent |
| `LhdcAssembler.ExactlyNoticedGaps` | apps/audioplayers/a2dpplay.cpp:1768-1783 | so every sequence of packets is delivered as it arrived exactly when no gap is a multiple of 256 |
| `LhdcAssembler.SpliceIff` | apps/audioplayers/a2dpplay.cpp:1768-1783 | two fragments are spliced exactly when a multiple of 256 datagrams is lost between them |
| `LhdcAssembler.HeaderFlags` | apps/audioplayers/a2dp_decoder/a2dp_decoder_lhdc.cpp:57-65 | the header byte of a sender (0 for a single packet, else 0x80, 0x40 on the first, 0x20 on the last fragment, and a latency) is read back as sent |
| `LhdcAssembler.DeliversFromBytes` | apps/audioplayers/a2dpplay.cpp:1751-1865 | the delivery theorem on the datagrams as bytes, header and number modulo 256 in front, any latency bits |
| `LhdcAssembler.ReplyCodes` | apps/audioplayers/a2dpplay.cpp:1751-1865 | from the bytes: 1 exactly with a packet; -1 exactly for a fragment in step that is no start where one is awaited, or that overflows the buffer behind others |
| `LhdcChain.AcceptedAreOffered` | apps/audioplayers/a2dpplay.cpp:637-659 | what the queue holds is what was handed out, in order, less what found no room |
| `LhdcChain.AllArrive` | apps/audioplayers/a2dpplay.cpp:637-659 | if there is room for them all, every packet that arrived complete and is not empty is accepted |
| `LhdcChain.LoadedAreSent` | apps/audioplayers/a2dpplay.cpp:2114-2181 | end to end, on every such link and in every interleaving: the payloads loaded are packets that arrived complete, in order and byte for byte |
| `LhdcChain.FrameableIff` | apps/audioplayers/a2dpplay.cpp:642-649 | of the packets of several fragments handed out exactly those of 4089 to 4095 bytes leave no room for the header |
| `LhdcChain.UnframeableIsHandedOut` | apps/audioplayers/a2dpplay.cpp:1832-1858 | such a packet is handed out |
| `DecodeSlots.InitHolds` | apps/audioplayers/a2dpplay.cpp:2547-2578 | the prefilled slots satisfy the protocol |
| `DecodeSlots.FullRing` | apps/audioplayers/a2dpplay.cpp:2342-2360 | a full ring blocks the coprocessor |
| `DecodeSlots.CpKeeps` | apps/audioplayers/a2dpplay.cpp:2482-2518 | every step of an attempt keeps slot ownership |
| `DecodeSlots.CpSetStateKeeps` | apps/audioplayers/a2dpplay.cpp:2440-2479 | DONE exactly for a complete block |
| `DecodeSlots.McuGiveBackKeeps` | apps/audioplayers/a2dpplay.cpp:2703-2717 | giving a slot back keeps slot ownership |
| `DecodeSlots.StepKeeps` | apps/audioplayers/a2dpplay.cpp:2674-2720 | every step of either core keeps: from the MCU's slot up to the coprocessor's DONE or FAILED, its own WORKING or IDLE, all others IDLE |
| `DecodeSlots.OneOwner` | apps/audioplayers/a2dpplay.cpp:2482-2518 | the MCU never copies from the slot being decoded into |
| `DecodeSlots.DoAllKeeps` | apps/audioplayers/a2dpplay.cpp:2342-2360 | in every reachable state |
| `DecodeSlots.LostIff` | apps/audioplayers/a2dpplay.cpp:2686-2717 | from every reachable state a run loses a complete block exactly when the coprocessor closes it between the MCU's two looks and the second look comes |
| `DecodeSlots.PlayedInOrder` | apps/audioplayers/a2dpplay.cpp:2674-2720 | the blocks played are complete ones in production order, prefilled first, and all the complete ones exactly when no block is closed between the two looks |
| `DecodeSlots.DecodeTaken` | apps/audioplayers/a2dpplay.cpp:2497-2513 | a decoded frame that fits the block is taken, and put behind the ones before |
| `DecodeSlots.FlowIsDecoded` | apps/audioplayers/a2dpplay.cpp:2482-2518 | in every run from any state the blocks made and what is in the making are the decoded frames in step order, none lost, none twice |
| `DecodeSlots.ProducedIsDecoded` | apps/audioplayers/a2dpplay.cpp:2482-2518 | from the start: the prefilled blocks, and behind them exactly the decoded frames |
| `DecodeSlots.AttemptBegins` | apps/audioplayers/a2dpplay.cpp:2342-2360 | an attempt can begin whenever its slot is the coprocessor's |
| `DecodeSlots.AttemptCloses` | apps/audioplayers/a2dpplay.cpp:2440-2467 | the slot is closed with what was made, DONE exactly when that is a block |
| `DecodeSlots.AttemptFillsSlot` | apps/audioplayers/a2dpplay.cpp:2482-2518 | an attempt whose frames add up to a block leaves a DONE slot that holds them in order, with MCU steps anywhere between |
| `DecodeSlots.LoadFailureRetries` | apps/audioplayers/a2dpplay.cpp:2498-2502 | a load that fails at zero output changes nothing, and the next attempt takes the slot up again |
| `DecodeSlots.WaitingBlockIsPlayed` | apps/audioplayers/a2dpplay.cpp:2674-2720 | one undisturbed call hands out a waiting block whole and gives its slot back |
| `DecodeSlots.FailedBlockIsSkipped` | apps/audioplayers/a2dpplay.cpp:2674-2720 | an incomplete one is given back uncopied |
| `DecodeSlots.NoMissWithoutInterference` | apps/audioplayers/a2dpplay.cpp:2686-2717 | nothing is missed in a run that closes no block between the MCU's two looks |
| `DecodeSlots.MissCanHappen` | apps/audioplayers/a2dpplay.cpp:2686-2717 | a run from the start in which a completed block is given back unplayed |
| `DecodeSlots.AttemptStaysInSlot` | apps/audioplayers/a2dpplay.cpp:2521-2544 | the room given to the decoder stays in the slot exactly when the attempt starts at zero output |
| `DecodeSlots.RetryLeavesSlotIff` | apps/audioplayers/a2dpplay.cpp:2440-2467 | a load that fails after part of a block, and only that, leaves a slot on which the next attempt does not stay |
| `Reframer.PcmQueue.Write` | apps/audioplayers/bt_sco_chain_reframe.c:147-168 | refused, unchanged, exactly when the frame does not fit; else appended |
| `Reframer.PcmQueue.Read` | apps/audioplayers/bt_sco_chain_reframe.c:170-192 | the front leaves and the rest moves down; a short queue gives zeros and is left alone |
| `Reframer.Reframe.TxProcess` | apps/audioplayers/bt_sco_chain_reframe.c:412-436 | one call: a frame goes in if it fits, one comes out, or silence |
| `Reframer.Reframe.WorkerPass` | apps/audioplayers/bt_sco_chain_reframe.c:273-319 | one wake-up of the worker: whole process frames move over until too little is queued |
| `ReframerRun.CallIsSteps` | apps/audioplayers/bt_sco_chain_reframe.c:412-436 | the run model's three steps of a call do to the queues what the call does, and signal the worker |
| `ReframerRun.PassIsSteps` | apps/audioplayers/bt_sco_chain_reframe.c:273-319 | its worker steps, to the next sleep, do what the worker's loop does |
| `ReframerRun.WakeIsSteps` | apps/audioplayers/bt_sco_chain_reframe.c:265-319 | so does a wake-up with the pass that follows |
| `ReframerRun.StepKeeps` | apps/audioplayers/bt_sco_chain_reframe.c:260-327 | no step overflows, underflows or drops while the worker is on time |
| `ReframerRun.NoUnderflow` | apps/audioplayers/bt_sco_chain_reframe.c:215-236 | a read by a worker on time finds a whole I/O frame |
| `ReframerRun.NoInputOverflow` | apps/audioplayers/bt_sco_chain_reframe.c:147-168 | a write finds room |
| `ReframerRun.NoOutputOverflow` | apps/audioplayers/bt_sco_chain_reframe.c:194-213 | a processed frame finds room |
| `ReframerRun.ExactDelay` | apps/audioplayers/bt_sco_chain_reframe.c:412-436 | with D >= P - gcd(P, IO) + (L + 1) IO, in every interleaving with a lag of at most L calls: the output is the voice channel delayed by exactly D zeros, with no fault |
| `ReframerRun.SpokenIsWritten` | apps/audioplayers/bt_sco_chain_reframe.c:412-436 | in every run the samples that count as spoken are the voice channel of the frames written, and no other channel's |
| `ReframerRun.PlaysTheVoiceChannel` | apps/audioplayers/bt_sco_chain_reframe.c:302-304 | sample by sample: D samples of silence, then the vp of the frames written |
| `ReframerRun.TooLittleFails` | apps/audioplayers/bt_sco_chain_reframe.c:51-64 | below the bound, a run within the lag fails |
| `ReframerRun.EnoughIsExact` | apps/audioplayers/bt_sco_chain_reframe.c:51-64 | no fault in any run exactly when D meets the bound |
| `ReframerRun.CodeConstants` | apps/audioplayers/bt_sco_chain_reframe.c:51-64 | P = 320 and D = 640 allow exactly L = 0 for IO = 240 and L <= 2 for IO = 120; one more I/O frame allows L = 1 |
| `NumberTheory.RemainderBound` | apps/audioplayers/bt_sco_chain_reframe.c:51-64 | multiples of IO leave at most P - gcd(P, IO) over whole process frames |
| `NumberTheory.RemainderReached` | apps/audioplayers/bt_sco_chain_reframe.c:51-64 | and some multiple leaves exactly that |
| `FirUpsampler.Upsampler.constructor` | apps/audioplayers/upsampling_to_48k.cpp:56-60 | history of zeros |
| `FirUpsampler.Upsampler.Accumulate` | apps/audioplayers/upsampling_to_48k.cpp:71-76 | the inner loop's value is the 32-bit accumulation over history and block |
| `FirUpsampler.Upsampler.OneSample` | apps/audioplayers/upsampling_to_48k.cpp:70-80 | one output per phase, nothing else written |
| `FirUpsampler.Upsampler.MoveDown` | apps/audioplayers/upsampling_to_48k.cpp:90-92 | the history's tail moves to its front |
| `FirUpsampler.Upsampler.Remember` | apps/audioplayers/upsampling_to_48k.cpp:83-97 | the history becomes the last 23 samples seen, for blocks shorter or longer than that |
| `FirUpsampler.Upsampler.Run` | apps/audioplayers/upsampling_to_48k.cpp:63-100 | ratio * n outputs, those of the filter over history and block; the new history |
| `FirUpsampler.FirPrefix` | apps/audioplayers/upsampling_to_48k.cpp:63-100 | outputs depend only on the samples up to them |
| `FirUpsampler.FirCut` | apps/audioplayers/upsampling_to_48k.cpp:63-100 | cutting the input anywhere changes nothing |
| `FirUpsampler.StreamIsOneRun` | apps/audioplayers/upsampling_to_48k.cpp:63-100 | for every cutting into blocks, empty and short ones included, the outputs are those of one run |
| `FirUpsampler.DirectConvolution` | apps/audioplayers/upsampling_to_48k.cpp:63-100 | for every signal each output is the direct convolution with 23 leading zeros in 32 bits, over 2^16, rounded down, in 16 bits |
| `FirUpsampler.ImpulseResponse` | apps/audioplayers/upsampling_to_48k.cpp:63-81 | a single sample of value v is answered by v times the phase's coefficients in reverse, from its own instant on, and by nothing else |
| `FirUpsampler.SteadyResponse` | apps/audioplayers/upsampling_to_48k.cpp:20-44 | after 24 equal samples all phases answer with the same gain to within ten parts in 2^16 |
| `FirUpsampler.ExactConvolution` | apps/audioplayers/upsampling_to_48k.cpp:69-81 | within the bound neither the accumulator nor the cast loses a bit |
| `FirUpsampler.AccIsWrappedSum` | apps/audioplayers/upsampling_to_48k.cpp:71-76 | at every tap the accumulator is the unbounded sum modulo 2^32 |
| `FirUpsampler.SumBound` | apps/audioplayers/upsampling_to_48k.cpp:69-81 | every partial sum is at most the row's magnitudes times the largest sample |
| `FirUpsampler.NeverWrapsIff` | apps/audioplayers/upsampling_to_48k.cpp:69-81 | no partial sum wraps for any samples up to m exactly when the row's magnitudes times m are below 2^31 |
| `FirUpsampler.AccIsSum` | apps/audioplayers/upsampling_to_48k.cpp:69-81 | then the accumulator is the unbounded sum at every tap |
| `FirUpsampler.RowSum8k2` | apps/audioplayers/upsampling_to_48k.cpp:20-28 | the worst row sums to 71978 |
| `FirUpsampler.SampleBound8k` | apps/audioplayers/upsampling_to_48k.cpp:20-28 | the 8 kHz rows are safe exactly for samples up to 29835 |
| `FirUpsampler.SampleBound16k` | apps/audioplayers/upsampling_to_48k.cpp:39-44 | the 16 kHz rows exactly up to 30450 |
| `FirUpsampler.FullScale` | apps/audioplayers/upsampling_to_48k.cpp:20-44 | at full scale exactly the rows with magnitudes up to 65535 are safe |
| `FirUpsampler.MirroredRows` | apps/audioplayers/upsampling_to_48k.cpp:20-44 | both tables: the row of the mirrored phase is the row backwards |
| `FirUpsampler.PhasesMoveOn` | apps/audioplayers/upsampling_to_48k.cpp:20-44 | from phase to phase the weight moves from tap 11 to tap 12 |
| `FirUpsampler.PeakOfRow` | apps/audioplayers/upsampling_to_48k.cpp:20-44 | these two are each row's largest; which of them leads says the phase's half of the period |
| `Crc8.Calculate` | apps/btspeaker/btspeaker_main.cpp:123-139 | the loops compute the fold of eight shifts per byte |
| `CrcBits.ShiftXor` | apps/btspeaker/btspeaker_main.cpp:123-139 | one shift is linear over xor |
| `Crc8.CrcXor` | apps/btspeaker/btspeaker_main.cpp:123-139 | the CRC is linear over xor for equal lengths |
| `Crc8.OwnCrc` | apps/btspeaker/btspeaker_main.cpp:391-393 | a message and one more byte have CRC 0 exactly when the byte is the message's CRC |
| `Crc8.BurstDetected` | apps/btspeaker/btspeaker_main.cpp:461-464 | every non-zero error whose set bits lie within 8 positions, anywhere in a message of any length, changes the CRC |
| `Crc8.OneByteIsBurst` | apps/btspeaker/btspeaker_main.cpp:461-464 | in particular every error within one byte |
| `Crc8.NineBitsMissed` | apps/btspeaker/btspeaker_main.cpp:123-139 | the nine-bit error that is the generator goes unnoticed wherever it falls |
| `ScanTable.Candidates.Handle` | apps/btspeaker/btspeaker_main.cpp:384-455 | the table after a reception: counted again, entered in a free place, or in place of the weakest |
| `ScanTable.Candidates.MaxCount` | apps/btspeaker/btspeaker_main.cpp:595-608 | the first entry with the largest count |
| `ScanTable.Best` | apps/btspeaker/btspeaker_main.cpp:595-608 | no entry has a larger count, no earlier one the same |
| `ScanTable.ReceiveKeepsTidy` | apps/btspeaker/btspeaker_main.cpp:384-455 | used entries stay a prefix with distinct addresses |
| `ScanTable.AlwaysTidy` | apps/btspeaker/btspeaker_main.cpp:384-455 | in every history from the clearing on |
| `ScanTable.OnlyWeakestReplaced` | apps/btspeaker/btspeaker_main.cpp:427-450 | a full table replaces only an entry of least RSSI, the first of them, and only by a reading at least as strong |
| `ScanTable.CountsReceptions` | apps/btspeaker/btspeaker_main.cpp:384-455 | each count is the number of receptions from that address since it last entered, modulo 2^16, and the entry shows the last of them |
| `ScanTable.ListedAfter` | apps/btspeaker/btspeaker_main.cpp:384-455 | a device is listed after a reception exactly when it was, or an entry is free, or the weakest is no stronger |
| `ScanTable.ConfirmsIff` | apps/btspeaker/btspeaker_main.cpp:413-426 | a reception confirms exactly when it makes the device's 16-bit count 5 or more |
| `Pairing.RoleOf` | apps/btspeaker/btspeaker_main.cpp:457-488 | with the tie-break some role is always taken |
| `Pairing.RolesDiffer` | apps/btspeaker/btspeaker_main.cpp:300-382 | two devices never decide for the same role |
| `Pairing.BeatsTransitive` | apps/btspeaker/btspeaker_main.cpp:300-382 | decision and tie-break are transitive, hence with RolesDiffer a strict total order; which one is BeatsIff |
| `Pairing.BeatsIff` | apps/btspeaker/btspeaker_main.cpp:300-382 | a profile beats none; then a mobile link beats none; then the smaller time; then the greater address |
| `Pairing.GreaterByBytes` | apps/btspeaker/btspeaker_main.cpp:457-488 | the address order goes by the first byte that differs |
| `Pairing.HearConfirmationKeeps` | apps/btspeaker/btspeaker_main.cpp:542-566 | a role is taken only on the true data of both devices |
| `Pairing.StepKeeps` | apps/btspeaker/btspeaker_main.cpp:764-814 | every button, timer, parse and scan report keeps tables, advertisements and role calls true |
| `Pairing.BothTakeRoles` | apps/btspeaker/btspeaker_main.cpp:764-814 | every two devices have a run in which both take a role |
| `Pairing.TimeoutEnds` | apps/btspeaker/btspeaker_main.cpp:88-105 | a time-out takes a device from wherever it is to idle and advertises nothing |
| `Pairing.EnoughHeardConfirms` | apps/btspeaker/btspeaker_main.cpp:764-814 | the reception that confirms a candidate, and no other, moves the search on to confirm the best candidate |
| `Pairing.PressesComeRound` | apps/btspeaker/btspeaker_main.cpp:764-814 | four presses with nothing heard: discovery, confirmation of the blank entry, and idle again, earlier candidates forgotten |
| `Pairing.ConfirmationEndsSearch` | apps/btspeaker/btspeaker_main.cpp:542-566 | so does a confirmation that names the device, even after a time-out |
| `Pairing.ConfirmationEndsFormation` | apps/btspeaker/btspeaker_main.cpp:542-566 | in formation it makes the device take the role of its rank and ends the formation |
| `Pairing.RolesAgree` | apps/btspeaker/btspeaker_main.cpp:542-566 | in every run: when two devices have each taken a role towards the other, exactly one is master, the one that outranks the other, and both passed the same (master, slave) pair |
| `CpHandshake.McuCopyInKeeps` | apps/audioplayers/bt_sco_chain_cp.c:90-152 | the frame copied in is the request counted |
| `CpHandshake.McuCopyOutKeeps` | apps/audioplayers/bt_sco_chain_cp.c:90-152 | what is copied out is the previous frame's result |
| `CpHandshake.CpKeeps` | apps/audioplayers/bt_sco_chain_cp.c:157-190 | one run of the algorithm per request |
| `CpHandshake.StepKeeps` | apps/audioplayers/bt_sco_chain_cp.c:90-190 | every step of either core keeps the protocol |
| `CpHandshake.OneFrameDelay` | apps/audioplayers/bt_sco_chain_cp.c:90-152 | in every interleaving: each side is in the buffers only in its own state, the counts differ by 0 or 1 and by 0 exactly in IDLE, and call k returns the algorithm's result for input k-1 with its length, zeros for k = 0 |
| `CpHandshake.AlgorithmSees` | apps/audioplayers/bt_sco_chain_cp.c:157-190 | which argument is which: the frame's voice, echo reference, feedback and status, the last two kept from before when null; the answer is the voice buffer cut to the length set |
| `CpHandshake.CallCompletes` | apps/audioplayers/bt_sco_chain_cp.c:90-152 | a call in IDLE returns the frame before's result and leaves WORKING; the coprocessor's run leaves IDLE |
| `CpHandshake.CallWaits` | apps/audioplayers/bt_sco_chain_cp.c:90-110 | in WORKING a call waits |
| `RpcQueue.MessageQueue.Push` | apps/app_rpc/rpc_queue.c:35-54 | the cut length, and the payload if there is room behind it, are queued; or nothing |
| `RpcQueue.MessageQueue.GetNextEntryLength` | apps/app_rpc/rpc_queue.c:56-75 | the length at the front across the wrap |
| `RpcQueue.MessageQueue.Wipe` | apps/app_rpc/rpc_queue.c:77-99 | clearing the popped segments touches no queued byte |
| `RpcQueue.MessageQueue.Pop` | apps/app_rpc/rpc_queue.c:77-99 | header and payload leave the queue, the payload is handed out |
| `RpcQueue.PushFramed` | apps/app_rpc/rpc_queue.c:35-54 | a push of a message keeps the queue a concatenation of messages |
| `RpcQueue.PopFramed` | apps/app_rpc/rpc_queue.c:77-99 | a pop returns the oldest message byte for byte |
| `RpcQueue.FramedUnique` | apps/app_rpc/rpc_queue.c:35-99 | the bytes determine the messages |
| `RpcQueue.PushKeepsFramingIff` | apps/app_rpc/rpc_queue.c:35-54 | framing is kept exactly by blocks that are refused or fit 16 bits, or whose bytes behind the announced ones are whole messages and have room |
| `RpcQueue.LongBlockCutShort` | apps/app_rpc/rpc_queue.c:35-54 | a block of 65537 bytes leaves a bare header in an empty queue |
| `RpcTransport.StepKeeps` | apps/app_rpc/rpc_bth_dsp.c:334-356 | every step of pushers and sender keeps: queued messages never exceed tokens, pushes not yet signalled and the token in hand |
| `RpcTransport.PopKeeps` | apps/app_rpc/rpc_bth_dsp.c:334-356 | the message sent is the oldest accepted |
| `RpcTransport.NoLostWakeup` | apps/app_rpc/rpc_bth_dsp.c:334-356 | in every interleaving messages are sent in order and the sender never sleeps on a non-empty queue with nothing pending |
| `RpcTransport.PushTakenIff` | apps/app_rpc/rpc_bth_dsp.c:386-403 | a message is accepted exactly when it fits behind its two bytes of length; its signal is owed either way |
| `RpcTransport.TokenWakes` | apps/app_rpc/rpc_bth_dsp.c:334-340 | a token wakes the sender |
| `RpcTransport.LengthRead` | apps/app_rpc/rpc_bth_dsp.c:341-347 | awake on a non-empty queue it reads the oldest message's length |
| `RpcTransport.SenderSends` | apps/app_rpc/rpc_bth_dsp.c:334-356 | from the wake-up on its next steps send the oldest message |
| `RpcTransport.AllCanBeSent` | apps/app_rpc/rpc_bth_dsp.c:334-356 | once every push is signalled the tokens suffice to send all that was accepted |
| `RpcTransport.NeverHalts` | apps/app_rpc/rpc_bth_dsp.c:341-347 | the length assertion never fires for messages of at most 512 bytes |
| `RpcTransport.LongMessageHalts` | apps/app_rpc/rpc_bth_dsp.c:341-347 | and does for every single longer one |
| `RpcTransport.CommandHalts` | apps/app_rpc/rpc_bth_dsp.c:386-403 | of the commands the send call lets through, exactly those with 511 or 512 bytes of data |
| `MsbcPacket.SeqByteDoublesBits` | apps/audioplayers/bt_sco_codec_msbc.c:46 | the table is the header's 8 with the two bits of the number, each doubled, above it |
| `MsbcPacket.Encoder.Encode` | apps/audioplayers/bt_sco_codec_msbc.c:205-238 | the packets are numbered on from call to call |
| `MsbcPacket.ConcatAt` | apps/audioplayers/bt_sco_codec_msbc.c:222-235 | packet k starts at 60 k |
| `MsbcPacket.LinkCarriesEncoded` | apps/audioplayers/bt_sco_codec_msbc.c:222-235 | without mutes the link's packets are the encoder's |
| `MsbcDeframer.FindHeader` | apps/audioplayers/bt_sco_codec_msbc.c:283-286 | the first header, or the end of the search when there is none |
| `MsbcDeframer.Deframer.Search` | apps/audioplayers/bt_sco_codec_msbc.c:282-297 | the search loop takes the alignment the specification takes |
| `MsbcDeframer.Deframer.CheckAll` | apps/audioplayers/bt_sco_codec_msbc.c:320-410 | which packets drift and whether alignment is given up |
| `MsbcDeframer.CheckByBytes` | apps/audioplayers/bt_sco_codec_msbc.c:330-410 | in bytes: alignment is lost exactly where neither a header, in place or a byte off, nor the mute pattern is; early and late by the header's place |
| `MsbcDeframer.GivesUpIff` | apps/audioplayers/bt_sco_codec_msbc.c:330-425 | an aligned call gives alignment up exactly when one of its packet positions is such a place; the others are handed over as they stand |
| `MsbcDeframer.StaysUnaligned` | apps/audioplayers/bt_sco_codec_msbc.c:282-315 | a call that finds no header stays unaligned and hands on its window from the start |
| `MsbcDeframer.Deframer.CutAll` | apps/audioplayers/bt_sco_codec_msbc.c:412-425 | the copies out of the window |
| `MsbcDeframer.Deframer.Carry` | apps/audioplayers/bt_sco_codec_msbc.c:534-536 | the last 60 bytes received move to the front, the rest stays |
| `MsbcDeframer.Deframer.Decode` | apps/audioplayers/bt_sco_codec_msbc.c:240-425 | one call: state and packets are those of the specification |
| `MsbcStream.CheckGood` | apps/audioplayers/bt_sco_codec_msbc.c:330-400 | at a slot start the check neither drifts nor gives up |
| `MsbcStream.AlignedCall` | apps/audioplayers/bt_sco_codec_msbc.c:412-425 | an aligned call hands over the next slots and stays aligned |
| `MsbcStream.AcquiringCall` | apps/audioplayers/bt_sco_codec_msbc.c:282-297 | the call that finds a true header takes its alignment and hands over the slots from there |
| `MsbcStream.PacketsTile` | apps/audioplayers/bt_sco_codec_msbc.c:266-268 | over any number of calls of 0, 60 or 120 bytes the packets tile the stream, no byte skipped or repeated |
| `MsbcStream.SlotsStart` | apps/audioplayers/bt_sco_codec_msbc.c:222-235 | slots with mSBC frames, the mute pattern, or damage behind the header look like slot starts |
| `MsbcStream.DeframesTheLink` | apps/audioplayers/bt_sco_codec_msbc.c:412-425 | encoder, byte offset, deframer: the packets handed over are the link's, byte for byte; at offset 1 only the padding byte may be missing |
| `MsbcStream.SyncTaken` | apps/audioplayers/bt_sco_codec_msbc.c:282-315 | when the first header found is a packet's, the deframer is left aligned on the link |
| `MsbcStream.SyncedOnASlot` | apps/audioplayers/bt_sco_codec_msbc.c:282-425 | so all later calls hand over the link's packets from the next one on |
| `MsbcChain.HandedOver` | apps/audioplayers/bt_sco_codec_msbc.c:412-435 | the deframer's packets meet the premises of the detector's theorems |
| `MsbcChain.ChainPassesIntact` | apps/audioplayers/bt_sco_codec_msbc.c:240-433 | link, deframer and detector together: exactly the intact slots pass, exactly the muted ones are flagged as muted, damaged ones as faults, over any number of calls |
| `PacketLoss.ParseIff` | apps/audioplayers/plc_utils.c:70-153 | a packet is taken for number k exactly when it has the header, the sequence byte of phase k, AD 00 00 and the right check sequence |
| `PacketLoss.GoodIff` | apps/audioplayers/plc_utils.c:70-153 | the payloads whose packets are taken for their number, and no others, are mSBC frames with a valid check |
| `PacketLoss.Detector.ParseHeader` | apps/audioplayers/plc_utils.c:70-153 | the parse with the source's loop over half bytes, the check written to the four bytes behind byte 5 |
| `PacketLoss.ParsedByBytes` | apps/audioplayers/plc_utils.c:70-153 | in bytes: a header error exactly without a header of some phase, a CRC error exactly with one and a wrong check |
| `PacketLoss.HalfMutedByBytes` | apps/audioplayers/plc_utils.c:206-235 | the front, or behind an unmuted first byte the tail, that a cut leaves is muted |
| `PacketLoss.VerdictByBytes` | apps/audioplayers/plc_utils.c:267-348 | the exact condition of every verdict but the pass and the sequence break, for any packet in any state |
| `PacketLoss.PassIff` | apps/audioplayers/plc_utils.c:267-348 | a pass exactly when nothing speaks against the packet and the number remembered is none or the one before its own modulo 4 |
| `PacketLoss.Remembered` | apps/audioplayers/plc_utils.c:267-348 | the packets, the number and the conflict flags remembered after any packet |
| `PacketLoss.ConflictOnce` | apps/audioplayers/plc_utils.c:168-186 | a conflict is not reported again two checks later |
| `PacketLoss.FirstPacket` | apps/audioplayers/plc_utils.c:258-300 | after power-up any number passes, and only a packet of zeros looks like a repeat |
| `PacketLoss.Detector.constructor` | apps/audioplayers/plc_utils.c:258-265 | the initial state and an empty histogram |
| `PacketLoss.Detector.AllMuted` | apps/audioplayers/plc_utils.c:188-196 | true exactly for all-pattern bytes |
| `PacketLoss.Detector.CheckTransmitterOffset` | apps/audioplayers/plc_utils.c:206-235 | true exactly for a packet whose front or tail is muted |
| `PacketLoss.Detector.UpdateConflict` | apps/audioplayers/plc_utils.c:168-177 | conflict and the shifted packet memory |
| `PacketLoss.Detector.UpdateHistogram` | apps/audioplayers/plc_utils.c:350-363 | the counters after one verdict, in 32 bits |
| `PacketLoss.Detector.Process` | apps/audioplayers/plc_utils.c:267-348 | one packet: verdict, state and histogram are those of the specification |
| `PacketLoss.Numbered` | apps/audioplayers/plc_utils.c:70-153 | an encoder packet with a valid check parses to its own number modulo 4 |
| `PacketLoss.NoConflict` | apps/audioplayers/plc_utils.c:168-177 | two packets two slots apart are never taken for a BLE conflict |
| `PacketLoss.IntactPassesIff` | apps/audioplayers/plc_utils.c:267-348 | in step an intact packet passes exactly when its tail of offset bytes is not all mute pattern; the detector stays in step |
| `PacketLoss.MutedIsFlagged` | apps/audioplayers/plc_utils.c:276-279 | a muted slot is flagged as such; the detector stays in step |
| `PacketLoss.DamagedIsFlagged` | apps/audioplayers/plc_utils.c:284-300 | a damaged packet never passes, which verdict it gets, and that the detector stays in step |
| `PacketLoss.JumpPassesIff` | apps/audioplayers/plc_utils.c:267-342 | behind an intact packet: a muted tail, a repeat of the packet two slots back, a step of one modulo 4, any other step; the verdict and the number remembered in each case |
| `PacketLoss.RunFrom` | apps/audioplayers/plc_utils.c:267-348 | the verdicts of a whole run of intact, muted and damaged slots, for any transmitter offsets |
| `PacketLoss.PassesExactlyIntact` | apps/audioplayers/plc_utils.c:267-348 | with the encoder's padding exactly the intact slots pass, exactly the muted ones are flagged as muted, and the damaged ones as half muted, header error, CRC error or repeat; no sequence break |
| `PacketLoss.HistogramCounts` | apps/audioplayers/plc_utils.c:350-363 | each counter is the count of its kind, less a decoder error each in the counter of passes, modulo 2^32 |
| `PacketLoss.HistogramMatchesRun` | apps/audioplayers/plc_utils.c:350-363 | on such a run, by bin number: passes are the intact slots, mutes the muted ones, the four faults together the damaged ones, all else zero |
| `SeqCounter.Decoder.GetPacketIndex` | apps/audioplayers/bt_sco_codec_xxxx.c:56-65 | the phase of a sequence byte, or invalid |
| `SeqCounter.PhaseOfSeqByte` | apps/audioplayers/bt_sco_codec_xxxx.c:56-65 | inverse to the packetizer's table |
| `SeqCounter.Decoder.DecodePacket` | apps/audioplayers/bt_sco_codec_xxxx.c:222-292 | one packet: verdict, counter and histogram |
| `SeqCounter.SlotNext` | apps/audioplayers/bt_sco_codec_xxxx.c:222-292 | a muted slot is concealed; an intact one exactly when the counter is out of step, and it puts it in step |
| `SeqCounter.JudgedByBytes` | apps/audioplayers/bt_sco_codec_xxxx.c:222-261 | in bytes, the verdict on any packet and the number it leaves |
| `SeqCounter.ConcealsExpected` | apps/audioplayers/bt_sco_codec_xxxx.c:222-292 | a run from any state conceals the muted slots and, out of step, the first intact one |
| `SeqCounter.ConcealsExactlyMuted` | apps/audioplayers/bt_sco_codec_xxxx.c:222-292 | from power-up or in step exactly the muted slots are concealed |
| `SeqCounter.JumpConcealsOne` | apps/audioplayers/bt_sco_codec_xxxx.c:238-292 | after slots are lost or inserted, exactly one intact packet is concealed, the first, when the shift is not 0 modulo 4, none when it is; then in step |
| `SeqCounter.DetectorsAgree` | apps/audioplayers/bt_sco_codec_xxxx.c:222-292 | on the encoder's runs the counter conceals exactly the packets the loss detector does not pass |

## Left out

- Hardware, RTOS, Bluetooth stack, codec and algorithm bodies: codecs are not modelled, the speech algorithm is any stateful function, locks are atomic steps.
- Integer widths: lengths and positions are unbounded where the source's cannot overflow; wrap-around is modelled for sequence numbers, counters, 16-bit lengths, CRC, accumulator and cast.
- A2dpCache.InCache.CpLoadLhdc: starts once the decoder is ready; latency handling is not modelled, and a complete packet longer than the read buffer is excluded.
- A2dpTransport.DeliveredAreAccepted: the recovery paths that reset a queue after a bad length, and the SBC, LDAC and scalable formats, are not modelled.
- LhdcAssembler.Assembler.AssembleInto: a datagram has a header and at most 4096 bytes of payload, as its caller ensures; the flag masks are those of apps/audioplayers/a2dp_decoder/a2dp_decoder_lhdc.cpp:57-60.
- DecodeSlots.PlayedInOrder: loads fail only at zero output; what a resumed attempt writes is not modelled, because the source gives it the wrong room (RetryLeavesSlotIff).
- DecodeSlots.StepKeeps: slot states and data are changed by atomic steps, the data a frame or a byte at a time; memory ordering between the cores is not modelled.
- Reframer.Reframe.TxProcess: the four channel queues, always moved together, are one queue of four-channel samples; the processing is the pick of the voice channel.
- ReframerRun.ExactDelay: the silence is queued at the start; the start-up code, whose source buffer is shorter than its copy, is not modelled.
- MsbcDeframer.Deframer.Decode: a call brings 0, 60 or 120 bytes; the copy of a packet that drifted by one byte is not modelled (it is marked as drifted), nor is decoding; the variable that skips a check after a bad frame is never set and is left out.
- MsbcDeframer.Deframer.CutAll: a drifted packet is marked as such, its bytes are not modelled.
- MsbcStream.SyncedOnASlot: runs in which a drift or a resynchronization occurs are not covered.
- PacketLoss.Parse: the CRC table is not part of this model; one table step is any function. The four-bit tail of the CRC loop is never reached by its index and is left out.
- PacketLoss.Detector.Process: the offset is below 60, as its caller ensures; the mute pattern is 0x55; checks that are compiled out by default (padding, trailing zeros) are left out.
- SeqCounter.ConcealsExpected: runs of intact and muted slots; a damaged one is judged by JudgedByBytes alone.
- SeqCounter.JumpConcealsOne: the counter has seen an intact packet before the jump.
- FirUpsampler.Upsampler.Run: input and output buffers are distinct from each other and from the history, and large enough.
- Pairing.BothTakeRoles: the run is one of many; timers and lost reports can prevent a pairing.
- Pairing.RolesAgree: advertisements heard have an intact CRC; devices have distinct non-zero addresses and unchanged statuses; events are posted and parsed one at a time; the layout of the advertisement and the walk over its sections are not modelled.
- ScanTable.Candidates.Handle: starts after the CRC and product checks.
- CpHandshake.OneFrameDelay: the deinitialization race and the algorithm's own buffers are not modelled.
- LhdcChain.LoadedAreSent: packets too long for their frame (FrameableIff) are excluded, as what the source makes of them is not modelled.
- RpcTransport.NoLostWakeup: the queue holds at most 196605 bytes (the source's buffer has 2048), so that the semaphore's 65535 tokens suffice; the receive path and command responses are not modelled.
- The walkie-talkie state machines, the older voice player, and vendor variants of the speech chain are not modelled.
- Sample copies, allocators, battery levels and mailbox wrappers are not modelled.
