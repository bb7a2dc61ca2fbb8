# Models of the lwIP stack in an Xbox boot loader

The boot loader carries a full lwIP TCP/IP stack. This project models its data structures and protocol
steps in Dafny and proves what they are for. Each component has a specification on values, with the
theorems about it, and the algorithm in the source's own form (a class whose fields and arrays are changed
in place, loops over an accumulator), proved equal to the specification.

* **TCP data transfer.** `Segments` has sequence numbers in 32 bits and segments. `Receiver` is the data part
  of tcp_receive with its out-of-sequence queue; `Sender` is tcp_enqueue, tcp_output, tcp_rexmit and the
  pruning of both queues. `Stream` puts a sender, a network that loses, duplicates and reorders, and a
  receiver together and proves the end-to-end theorem. `ControlBlock` is the control block whose fields are
  updated in place, with 32-bit numbers and 16-bit and 8-bit counters, and `Connections` is runs of two of them
  over a network that carries 32-bit numbers. `ReceiverLaws` and `SenderLaws` say what each step does to the
  window, to the numbers that are held and to each of the two queues, and `StreamLaws` carries this over runs.
* **The heap.** `Heap` is the chain of blocks; `HeapMemory` is the allocator on the byte array with its headers
  inside.
* **Packet buffers.** `Pbufs` has reference counts, links and the pool; `PbufChains` has lengths and contents;
  `PbufPool` has the operations on the memory of structures; `PbufRuns` has whole runs of them, with the
  reference counts, `PbufTotals` the total lengths, and `PbufFree` the free buffers and new chains.
* **The Internet checksum**, `Checksum`, over one buffer and over chains cut at odd places; `ChecksumPseudo` has
  the pseudo header in bytes.
* **IP fragments.** `IpHeader` and `IpFrag` cut a packet; `IpReass` and `IpReassembly` put it together, and
  `IpReassRuns` has one datagram after the other.
* **Timers.** `Timers` has the list of differences, `TimerList` the linked nodes and the wait loop, `TimerRuns`
  whole runs against real time.
* **Smaller parts.** `Dhcp` options, with `DhcpOverload` for those outside of their field, the `Arp` cache, with
  `ArpRuns` for how long it keeps what it heard, `Adler`-32, local `Ports`. `Bytes` has machine integers and buffer
  chains.

Sequence numbers, memory addresses and lists of handlers are values; calls into code outside of the models
(the network, the clock, callbacks, allocators that may fail) are parameters: a flag or a number of free
blocks says whether memory is there, a step says what arrives and when.

## Findings

The models follow the code. In these places the promise fails; each has a concrete run, and the exact
condition under which the promise holds.

* `mem.c` calls lfree the lowest free block. mem_realloc does not lower it, and a later request may fail
  although a free block fits (`Heap.HintMissesAfterRealloc`). It stays the lowest if and only if nothing is cut
  off, or lfree lies below the block, or lfree is the free block right behind it (`Heap.ReallocLowest`); and in
  all states of a run if and only if every call meets this guard (`Heap.RunLowest`).
* A request for 65535 bytes wraps to 0 when it is aligned (`Heap.WrappedRequest`, `Heap.MallocLongEnough`).
* tcp_receive replaces a queued segment by a longer one without trimming it against the next; rcv_nxt can
  then run past the end of the stream (`Receiver.OverrunRunsPastStream`). The receiver is right if and only
  if this does not happen (`Receiver.ReceiveKeepsExactly`), and with lwIP's own sender it never does
  (`Stream.NeverOverruns`).
* After an acknowledgement of everything that arrives while something is unsent, which retransmission makes
  possible, snd_nxt is the number of the last segment and not that of what is sent next
  (`SenderLaws.NxtIsStale`): the loop sets it from the segment that is left, and none is. It is right in all
  states of a run if and only if this does not happen (`SenderLaws.AckNxt`, `StreamLaws.RunNxt`).
* The completeness check of ip_reass skips one byte of the bitmap (`IpReass.HandsUpAHole`,
  `IpReass.HandedUpExactly`). When the fragment without MF comes last nothing is missing
  (`IpReass.FragmentThenReassemble`).
* A fragment that ends exactly at the end of the reassembly buffer is accepted, and the byte behind the bitmap
  is read for it (`IpReassembly.EndOfBufferAccepted`); the byte is inside if and only if the fragment ends
  before the end of the buffer (`IpReassembly.MarkInRange`).
* etharp_query does not reset the age of the entry it takes, and empty entries age too. A request may be dropped
  by the next tick (`Arp.PendingDroppedEarly`), or survive the tick at which ARP_MAXPENDING should end it
  (`Arp.PendingOutlives`). It ends on time if and only if the entry had age 0 (`Arp.PendingSurvivesTick`).
* When the overload option says that both fields hold options, the search takes them for one, and the END that
  section 4.1 of RFC 2131 puts behind the options in sname hides those in file (`DhcpOverload.FileIsHidden`).
  They are found if and only if the options in sname fill it to the last byte (`DhcpOverload.BothFields`).
* pbuf_free counts in 8 bits. When it frees a multiple of 256 buffers pbuf_dechain takes that for none and
  returns the freed rest (`PbufRuns.FreedRestReturned`: buffers without data take 22 bytes each, so the heap has
  room for 257). Its result is right if and only if nothing was freed, or not a multiple of 256 buffers
  (`PbufPool.PbufMemory.Dechain`).
* pbuf_alloc asks mem_malloc for a size that is cut to 16 bits (`PbufPool.RequestWraps`); there is memory for the
  length if and only if the aligned size fits (`PbufPool.SingleHasData`).
* Timers go off in the order of the time that the list counts. After time spent outside of the waits that is not
  the order of real time (`TimerRuns.UncountedTimeReorders`); without it, it is (`TimerRuns.RealDeadlinesInOrder`).

## Model

| member | source | states |
|---|---|---|
| Segments.WireComparisons | lwip/src/include/lwip/tcp.h:111-114 | the TCP_SEQ_* comparisons of 32-bit numbers agree with the comparison of the unbounded numbers whenever these are less than 2^31 apart |
| Segments.WireOrderExactly | lwip/src/include/lwip/tcp.h:111-114 | for any two numbers: TCP_SEQ_LT is true exactly when their difference is an odd number of half turns and a part, and right exactly when that is the same as being negative |
| Segments.WireComparisonsFarApart | lwip/src/include/lwip/tcp.h:111-114 | at a distance of exactly half the number space either number is below the other, so that the bound cannot be raised |
| ControlBlock.CutTailWire | lwip/tcp_in.c:956-962 | cutting the tail of a segment, its length field in 16 bits, gives the same with 32-bit numbers as with unbounded ones, for any distance |
| Receiver.EnqueueKeepsSorted | lwip/tcp_in.c:1024-1147 | ooseq stays strictly sorted by first sequence number whatever any peer sends |
| Receiver.ReceiveKeepsQueue | lwip/tcp_in.c:899-1147 | ooseq stays sorted, disjoint, wholly above rcv_nxt and inside the window exactly when the step is not a same-start replacement that runs into the next queued segment |
| Receiver.ReceiveKeepsStream | lwip/tcp_in.c:899-1147 | every queued segment holds the right bytes of the stream, and what was delivered is the stream up to rcv_nxt |
| Receiver.ReceiveKeepsExactly | lwip/tcp_in.c:899-1147 | for any peer that sends pieces of one stream, the whole receiver invariant is kept if and only if the step is not an overrunning replacement |
| Receiver.ReceiveOnlyGrows | lwip/tcp_in.c:964-1010 | nothing delivered is ever taken back and rcv_nxt never decreases |
| Receiver.ReceiveStarts | lwip/tcp_in.c:1024-1147 | a queued segment begins where one was queued before or where the arriving segment begins |
| Receiver.RunDeliversStream | lwip/tcp_in.c:899-1147 | in a run without overrunning replacements, from any peer, the delivered bytes are the stream up to rcv_nxt |
| Receiver.OverrunRunsPastStream | lwip/tcp_in.c:1064-1077 | a concrete run of pieces of a four-byte stream after which rcv_nxt is 65538: the replacement is not trimmed against its successor |
| ReceiverLaws.WindowCloses | lwip/tcp_in.c:970-1011 | whatever arrives, the right edge of the window stays, or moves to rcv_nxt if that passes it: rcv_wnd goes down by exactly what is delivered, and to 0 at the least |
| ReceiverLaws.WindowOpens | lwip/tcp.c:439-446 | what the application takes moves it to the right by as much, up to TCP_WND, and changes nothing else |
| ReceiverLaws.EnqueueHolds | lwip/tcp_in.c:1024-1147 | exactly which sequence numbers ooseq has after a segment is queued: its own up to the next queued start, and the old ones but for the part behind it of a segment that it cuts in two |
| ReceiverLaws.ReceiveHolds | lwip/tcp_in.c:899-1147 | exactly which sequence numbers are delivered or queued after an arrival, for any segment and any state of the queue, with or without memory |
| ReceiverLaws.StepHeld | lwip/tcp_in.c:899-1147 | of segments none of which starts inside of another, an arrival adds exactly its own numbers to those that are held |
| ReceiverLaws.RunHolds | lwip/tcp_in.c:899-1147 | over any run of such segments what is held is what was held at the start and what the segments cover |
| ReceiverLaws.AnyOrderDelivers | lwip/tcp_in.c:899-1147 | such segments that fit the window and cover a stream, in any order and any number of times, deliver the whole stream without a retransmission |
| Sender.CutUpTiles | lwip/tcp_out.c:147-286 | the new segments follow each other without a gap, hold exactly the data, are at most mss long, and hold the counted buffers |
| Sender.WriteKeeps | lwip/tcp_out.c:100-347 | tcp_enqueue keeps the sender invariant and appends exactly its data, or changes nothing |
| SenderLaws.WriteGoesThrough | lwip/tcp_out.c:117-286 | a write succeeds if and only if the data fits the send buffer, the queue is not full, and queue and memory have room for the buffers of the length over mss, rounded up, segments |
| SenderLaws.CutUpFull | lwip/tcp_out.c:147-286 | all segments of a write are mss long but the last, which is not empty |
| SenderLaws.CutUpCount | lwip/tcp_out.c:147-286 | their number is the length over mss, rounded up |
| SenderLaws.WriteMerges | lwip/tcp_out.c:276-313 | unsent grows by as many segments, or by one less exactly if the first fits behind the last unsent one |
| Sender.AppendTiles | lwip/tcp_out.c:276-313 | merging the first new segment into the last unsent one keeps the gap-free tiling of the sequence numbers |
| Sender.OutputKeeps | lwip/tcp_out.c:437-474 | tcp_output moves segments from unsent to unacked and leaves the queue of all segments as it is |
| Sender.SentIsQueued | lwip/tcp_out.c:437-474 | what goes to the network is a queued segment, inside the window, and is counted by snd_max |
| SenderLaws.OutputExactly | lwip/tcp_out.c:437-470 | tcp_output sends exactly the unsent segments up to the first that ends beyond the window, in order; these and no others are on unacked afterwards |
| SenderLaws.OutputMax | lwip/tcp_out.c:456-459 | snd_max is raised to the end of a segment that is sent, or stays |
| Sender.RexmitKeeps | lwip/tcp_out.c:570-590 | retransmission leaves the sequence of queued segments as it is |
| SenderLaws.AckNxt | lwip/tcp_in.c:804-835 | snd_nxt stays the number of what is sent next under an acknowledgement if and only if that is not one of everything while something is unsent |
| SenderLaws.NxtIsStale | lwip/tcp_in.c:804-835 | a concrete run after which snd_nxt is the number of a byte that was acknowledged |
| SenderLaws.OutputNxt | lwip/tcp_out.c:456 | sending keeps snd_nxt right, and makes it right again |
| Sender.AckKeeps | lwip/tcp_in.c:731-835 | an acknowledgement removes from the sequence of all segments exactly those it covers if it is news, and none otherwise, and keeps the invariant; on which queue the others are is AckExactly |
| SenderLaws.AckExactly | lwip/tcp_in.c:780-835 | an acknowledgement that is news leaves on unacked exactly the segments it does not cover, leaves unsent alone unless all of unacked is covered, and moves snd_nxt only when it takes segments off unsent |
| SenderLaws.NewsResendsNothing | lwip/tcp_in.c:780-835 | nothing that was in flight when such an acknowledgement came is among what tcp_output sends next |
| Sender.AckOfEverything | lwip/tcp_in.c:782-835 | acknowledging everything that was sent empties both queues |
| Sender.FreshInv | lwip/tcp_out.c:117-135 | the invariant holds of a connection that has just been set up |
| Stream.NextKeeps | lwip/tcp_in.c:731-1147 | every step of a sender, a network that loses, duplicates and reorders, and a receiver keeps the invariant of the whole system |
| Stream.NeverOverruns | lwip/tcp_in.c:1064-1077 | no segment of this sender makes a queued segment overrun its successor, because no sent segment has the start of another strictly inside |
| Stream.WriteShape | lwip/tcp_out.c:288-297 | a write changes no queued segment but the last, which only grows |
| Stream.EndToEnd | lwip/tcp_in.c:731-1147 | in every reachable state the delivered bytes are a prefix of the written bytes, and the missing ones are exactly the end of the sender's queues (the sender's steps are lwip/tcp_out.c:100-347, 437-474 and 570-598) |
| Stream.EmptyQueuesMeanDelivered | lwip/tcp_in.c:782-835 | when the sender has nothing queued, everything written has been delivered |
| Stream.SendAccounting | lwip/tcp_out.c:117-347 | in every reachable state the queues tile the unremoved bytes in segments of at most mss, snd_buf plus the unacknowledged bytes is constant, and snd_queuelen is the number of buffers held |
| Stream.NoDeadEnd | lwip/tcp_out.c:571-590 | from every reachable state some continuation of the run delivers everything written and empties the queues (sending lwip/tcp_out.c:437-474, receiving and acknowledging lwip/tcp_in.c:731-1147) |
| Stream.ReachableInv | lwip/tcp_in.c:731-1147 | every reachable state satisfies the invariant |
| StreamLaws.RunWindow | lwip/tcp_in.c:970-1011 | in every run in which the application takes no more than there is, the window is never closed further than by what it has not taken, and is closed by exactly that if all segments end inside the window |
| StreamLaws.WindowIsUnread | lwip/tcp.c:439-446 | so from the start of a connection rcv_wnd is TCP_WND less the bytes delivered and not taken |
| StreamLaws.RunNxt | lwip/tcp_in.c:804-835 | in all states of a run snd_nxt is the number of what is sent next, if and only if no acknowledgement of everything arrives while something is unsent |
| StreamLaws.RunMax | lwip/tcp_out.c:456-459 | in every reachable state snd_max is the end of a segment that was sent, or the start |
| ControlBlock.TcpPcb.TcpOutput | lwip/tcp_out.c:437-474 | the loop over unsent, with 32-bit numbers, does what Output says |
| ControlBlock.TcpPcb.Requeue | lwip/tcp_out.c:570-590 | the relinking of unacked in front of unsent does what Rexmit says |
| ControlBlock.TcpPcb.TcpRexmit | lwip/tcp_out.c:570-598 | requeueing followed by output |
| ControlBlock.TcpPcb.PruneUnacked | lwip/tcp_in.c:782-801 | the loop that frees acknowledged segments from unacked |
| ControlBlock.TcpPcb.PruneUnsent | lwip/tcp_in.c:804-835 | the loop that frees acknowledged segments from unsent and moves snd_nxt |
| ControlBlock.TcpPcb.ReceiveAck | lwip/tcp_in.c:700-835 | the acknowledgement part of tcp_receive on 32-bit fields does what Ack says, which SenderLaws.AckExactly states queue by queue |
| ControlBlock.TcpPcb.CutData | lwip/tcp_out.c:147-271 | the segmentation loop builds the segments of CutUp, or frees every segment it made when memory or the queue limit fails |
| ControlBlock.TcpPcb.AppendUnsent | lwip/tcp_out.c:276-313 | linking or merging the new segments does what Append says |
| ControlBlock.TcpPcb.TcpWrite | lwip/tcp_out.c:100-347 | tcp_enqueue does what Write says; a failing call changes no field and keeps no segment |
| ControlBlock.TcpPcb.DeliverQueued | lwip/tcp_in.c:983-1015 | the loop that drains ooseq does what Drain says; the window closes as in ReceiverLaws.WindowCloses |
| ControlBlock.TcpPcb.ReceiveInSequence | lwip/tcp_in.c:951-1020 | delivery of a segment that is next in sequence, with the window closed by as much |
| ControlBlock.TcpPcb.QueueSegment | lwip/tcp_in.c:1024-1147 | the walk through ooseq, with its tests of neighbours, does what Enqueue says |
| ControlBlock.TcpPcb.ReceiveData | lwip/tcp_in.c:899-1147 | the data part of tcp_receive on 32-bit fields does what Receive says, the window included (ReceiverLaws.WindowCloses), and keeps the receiver valid exactly when the step does not overrun |
| ControlBlock.TcpPcb.TcpRecved | lwip/tcp.c:439-446 | the window is opened again, up to TCP_WND |
| ControlBlock.TcpPcb.DropQueue | lwip/tcp.c:653-657 | the slow timer drops queued out-of-sequence data and nothing else |
| Connections.SentImages | lwip/tcp_out.c:437-474 | what the network holds in 32 bits are the images of what the unbounded system has sent |
| Connections.NeverAhead | lwip/tcp_in.c:731-735 | nothing that arrives is ahead of the connection's numbers by more than 32-bit comparisons can tell: only age can be out of reach |
| Connections.Connection.Output | lwip/tcp_out.c:437-474 | the sending control block puts the segments of the unbounded step on the network |
| Connections.Connection.AckArrives | lwip/tcp_in.c:731-835 | an acknowledgement from the network, known by its 32-bit number only, has the effect of the unbounded step |
| Connections.Connection.SegmentArrives | lwip/tcp_in.c:899-1147 | a segment from the network, known by its 32-bit number only, has the effect of the unbounded step |
| Connections.Connection.Play | lwip/tcp_in.c:731-1147 | every run of two control blocks in memory is the run of the unbounded system, if nothing arrives that is 2^31 - 2^17 or more old |
| Connections.Connection.EndToEnd | lwip/tcp_in.c:731-1147 | in the fields themselves: the delivered bytes are a prefix of the written ones, and the queues from the 32-bit number rcv_nxt on are the missing bytes |
| Connections.Converse | lwip/tcp_in.c:731-1147 | after every such run from an established connection what is delivered is a prefix of what is written, and all of it when the queues are empty |
| Heap.RoundedEven | lwip/mem.c:250-254 | a rounded request leaves the next header at an even place, also when it wraps |
| Heap.MallocKeeps | lwip/mem.c:240-309 | mem_malloc keeps the blocks tiling the memory, coalesced, with the hint at a free block; and keeps the hint exact |
| Heap.FreeKeeps | lwip/mem.c:136-175 | mem_free keeps the same, with coalescing on both sides |
| Heap.ReallocKeeps | lwip/mem.c:189-239 | mem_realloc keeps the blocks tiling the memory, coalesced, with the hint at a free block |
| Heap.ReallocLowest | lwip/mem.c:217-236 | mem_realloc keeps an exact hint exact if and only if it cuts nothing off, or the hint lies below the block, or the hint is the free block right behind it, with which the new one is merged |
| Heap.NextKeeps | lwip/mem.c:136-309 | each of the three calls keeps the invariant, and keeps an exact hint exact if and only if it is not a call of mem_realloc that misses this guard |
| Heap.RunLowest | lwip/mem.c:136-309 | lfree is the lowest free block in every state of a run if and only if every call of mem_realloc in it meets the guard |
| Heap.MallocFromHint | lwip/mem.c:262-301 | the search returns the lowest block that fits from the hint on, and fails exactly when there is none |
| Heap.FirstFitIsExact | lwip/mem.c:262-301 | what an inexact hint costs: the search is first fit over the whole heap if and only if no block that fits lies below it |
| Heap.RunFirstFit | lwip/mem.c:136-309 | first fit is exact after every run of the three calls in which each call of mem_realloc meets the guard |
| Heap.LiveDisjoint | lwip/mem.c:240-309 | allocated pieces never overlap each other or a header |
| Heap.MallocLive | lwip/mem.c:262-300 | an allocation adds one piece of exactly the rounded size and changes no other |
| Heap.MallocLongEnough | lwip/mem.c:250-254 | the piece is as long as the request, except for the request of 65535 bytes |
| Heap.WrappedRequest | lwip/mem.c:250-254 | that request succeeds with no bytes at all |
| Heap.FreeLive | lwip/mem.c:136-175 | freeing removes one piece and changes no other |
| Heap.ReallocLive | lwip/mem.c:217-236 | shrinking changes the length of one piece and no other; a request that leaves too little changes nothing |
| Heap.MallocSucceeds | lwip/mem.c:240-301 | mem_malloc succeeds if and only if the request is not empty and a free block from the hint on has room for it, rounded, and for another header |
| Heap.ReallocLength | lwip/mem.c:189-236 | the piece is then as long as the rounded request if that is more than 18 bytes less than it was, and else as long as before |
| Heap.RunKeeps | lwip/mem.c:80-309 | over every run of the three calls the invariant holds |
| Heap.RunAligned | lwip/mem.c:80-309 | over every run all headers and pieces are aligned |
| Heap.FreeingEverything | lwip/mem.c:80-309 | after any run, freeing all pieces in any order gives back the single block of the start |
| Heap.HintMissesAfterRealloc | lwip/mem.c:224-236 | a concrete run after which a request fails although a free block fits: mem_realloc does not lower the hint |
| HeapMemory.TakeHolds | lwip/mem.c:266-277 | the header fields written for an allocation are the chain with the block taken |
| HeapMemory.SplitHolds | lwip/mem.c:224-233 | the header fields written for a shrunk block are the chain with the new block |
| HeapMemory.MergeHolds | lwip/mem.c:92-110 | the header fields written by plug_holes are the chain with two blocks merged |
| HeapMemory.InitHolds | lwip/mem.c:118-126 | the header fields written by mem_init are the initial chain and the sentinel |
| HeapMemory.Ram.constructor | lwip/mem.c:113-135 | mem_init |
| HeapMemory.Ram.MergeForward | lwip/mem.c:90-100 | plug_holes forward, on the bytes; allocated bytes are not written |
| HeapMemory.Ram.MergeBackward | lwip/mem.c:102-110 | plug_holes backward, on the bytes; allocated bytes are not written |
| HeapMemory.Ram.PlugHoles | lwip/mem.c:80-112 | both, one after the other |
| HeapMemory.Ram.Free | lwip/mem.c:136-175 | mem_free on the bytes is Heap.Free; a pointer outside is ignored; no byte of an allocated piece changes |
| HeapMemory.Ram.Realloc | lwip/mem.c:189-239 | mem_realloc on the bytes is Heap.Realloc; what remains of the piece, and every other piece, keeps its bytes |
| HeapMemory.Ram.Search | lwip/mem.c:262-265 | the search along the headers finds the block the specification chooses |
| HeapMemory.Ram.SeekFree | lwip/mem.c:288-294 | the hint moves along the headers to the next free block |
| HeapMemory.Ram.Malloc | lwip/mem.c:240-309 | mem_malloc on the bytes is Heap.Malloc; no byte of an allocated piece changes |
| Checksum.LwipChksum | lwip/inet.c:51-77 | the sum over one buffer, folded in 32 bits without overflow, is the one's complement sum |
| Checksum.SumConcat | lwip/inet.c:96-113 | the sum of two pieces, with the bytes of the second swapped when the first is odd |
| Checksum.InetChksumPseudo | lwip/inet.c:84-126 | over any chain of pieces of odd or even lengths the result is exactly that for the same data in one buffer, which ChecksumPseudo.PseudoIsHeader gives in bytes |
| ChecksumPseudo.PseudoIsHeader | lwip/inet.c:85-131 | what inet_chksum_pseudo computes is the checksum of the 12 bytes of the pseudo header of RFC 793, section 3.1, with the data behind them |
| ChecksumPseudo.HeaderDamageIsSeen | lwip/inet.c:116-119 | a packet that is right for its addresses and length fails the check when a word of an address or of the length is replaced, unless both words are zeros of one's complement arithmetic |
| Checksum.InetChksum | lwip/inet.c:134-144 | the checksum of one buffer |
| Checksum.FilledChecks | lwip/tcp_out.c:525-529 | a packet whose checksum field, at an even offset, was filled checks to 0 |
| Checksum.DamageIsSeen | lwip/tcp_in.c:140-142 | a correct packet with one word replaced fails the check unless both words are zeros of one's complement arithmetic |
| Checksum.ByteOrderIndependent | lwip/inet.c:51-77 | the sum in memory order is the checksum of RFC 1071, section 1, with its bytes swapped |
| IpHeader.ParseWire | lwip/src/include/ipv4/lwip/ip.h:129-145 | reading a written header gives its fields back |
| IpHeader.FieldsOnWire | lwip/src/include/ipv4/lwip/ip.h:129-145 | the fields are at the places of section 3.1 of RFC 791, high byte first, and the checksum as the machine stores it |
| IpHeader.FinishedChecks | lwip/ip_frag.c:325-328 | a header with its checksum filled passes the check of the receiver |
| IpFrag.CopyFromPbuf | lwip/ip_frag.c:56-75 | len bytes of the chain from the offset on are copied, and the returned place is where the rest goes on |
| IpFrag.Frag | lwip/ip_frag.c:278-347 | ip_frag sends frames that carry exactly the fragments of the data, for every cut of it into buffers |
| IpFrag.FragmentsChop | lwip/ip_frag.c:302-344 | the fragments are parts of the datagram with right headers, each beginning where the one before ends, and MF is clear only at the end |
| IpFrag.FragmentsCover | lwip/ip_frag.c:302-344 | every byte of the datagram is in some fragment |
| IpFrag.FragmentsFull | lwip/ip_frag.c:302-344 | every fragment fits the MTU, and all but the last are as long as blocks of 8 bytes allow |
| IpReass.MarkedIffCovered | lwip/ip_frag.c:161-183 | a block is marked exactly when some accepted fragment covers it |
| IpReass.LastWriterWins | lwip/ip_frag.c:153-159 | a byte of the buffer is the one written by the last fragment that covers it |
| IpReass.OthersUntouched | lwip/ip_frag.c:153-159 | bytes that no fragment covers are not written |
| IpReass.ReceivingIsStoring | lwip/ip_frag.c:104-202 | as long as fragments of one datagram come and none completes it, receiving them is storing them |
| IpReass.ReceiveKeeps | lwip/ip_frag.c:104-267 | the sizes and the length stay in range |
| IpReass.RunGathers | lwip/ip_frag.c:104-267 | any run of fragments but the last, in any order, with repetitions, other traffic and ticks, hands nothing up and holds every fragment that came |
| IpReass.FragmentThenReassemble | lwip/ip_frag.c:104-347 | the fragments of any datagram for any MTU, the last one last, give NULL until then and then the original data under the original header |
| IpReassRuns.TimerAfter | lwip/ip_frag.c:116-237 | a packet of another datagram changes nothing; one that reaches outside of the buffer, or completes the datagram, releases the buffer; any other keeps it, or takes it for IP_REASS_MAXAGE seconds |
| IpReassRuns.HandedUpReleases | lwip/ip_frag.c:224-249 | whoever hands a datagram up has released the buffer |
| IpReassRuns.FirstFragmentExpires | lwip/ip_frag.c:92-123 | an unfinished datagram is dropped IP_REASS_MAXAGE seconds after its first fragment and not before |
| IpReassRuns.OneDelivered | lwip/ip_frag.c:104-267 | the fragments of a datagram, among other traffic and ticks, hand it up once and leave the buffer free |
| IpReassRuns.EachHandedUpOnce | lwip/ip_frag.c:104-267 | any number of datagrams, one after the other: each is handed up exactly once, in this order, with its original data |
| IpReass.WholeIsOriginal | lwip/ip_frag.c:224-231 | with a right length and checksum that header is the original one, bit for bit |
| IpReass.PassesExactly | lwip/ip_frag.c:199-222 | what the completeness check says: it skips one byte of the bitmap |
| IpReass.HandedUpExactly | lwip/ip_frag.c:199-222 | a datagram that passes the check has all its bytes if and only if the blocks of the skipped byte have come |
| IpReass.HandedUp | lwip/ip_frag.c:104-267 | of a datagram handed up, every byte is the one the last fragment to cover it brought, if and only if the blocks of the skipped byte have come |
| IpReass.HandsUpAHole | lwip/ip_frag.c:205-212 | two fragments of a 136-byte datagram that are handed up as a whole with 64 bytes missing |
| IpReassembly.MarkInRange | lwip/ip_frag.c:161-185 | the last byte of the bitmap that an accepted fragment marks exists if and only if the fragment does not end at the very end of the buffer; behind the bitmap no bit is set |
| IpReassembly.EndOfBufferAccepted | lwip/ip_frag.c:138-144 | there is such a fragment |
| IpReassembly.Reassembler.Mark | lwip/ip_frag.c:161-183 | the bitmap update marks exactly the blocks between the two offsets |
| IpReassembly.Reassembler.Full | lwip/ip_frag.c:203-222 | the loop over the bitmap is the check of the specification |
| IpReassembly.Reassembler.Accept | lwip/ip_frag.c:153-197 | an accepted fragment goes into the buffer and the bitmap |
| IpReassembly.Reassembler.Receive | lwip/ip_frag.c:104-267 | ip_reass on the static buffers does what Receive says, and releases them as IpReassRuns.TimerAfter states |
| IpReassembly.Reassembler.Timer | lwip/ip_frag.c:92-102 | the age is counted down to zero |
| Timers.DeadlinesSorted | lwip/sys.c:176-201 | the deadlines of a list of differences never decrease along the list |
| Timers.InsertDeadline | lwip/sys.c:156-201 | sys_timeout adds one deadline, behind all that are not later, and changes no other |
| Timers.RemoveDeadline | lwip/sys.c:207-236 | sys_untimeout takes away the first deadline of the job and changes no other |
| Timers.ChargeDeadlines | lwip/sys.c:86-95 | waiting moves the base and leaves every deadline as it is |
| TimerList.Timeouts.Timeout | lwip/sys.c:156-201 | the walk along the linked list, subtracting on the way, inserts as specified |
| TimerList.Timeouts.Untimeout | lwip/sys.c:207-236 | the search and unlinking remove as specified |
| TimerList.Timeouts.Fetch | lwip/sys.c:48-98 | the wait loop lets timers go off and charges the time waited as specified |
| TimerRuns.RunKeeps | lwip/sys.c:48-236 | every step of a run of setting, cancelling, waiting and firing keeps the invariant |
| TimerRuns.TimersFireInOrder | lwip/sys.c:48-201 | in every run timers go off in the order of their deadlines in the time that the list counts, first set first on ties, with their own job, never before the requested time has passed |
| TimerRuns.RealDeadlinesInOrder | lwip/sys.c:48-201 | they go off in the order of the real times they were set for, if all time that passes while a timer is pending is spent in waits and counted |
| TimerRuns.UncountedTimeReorders | lwip/sys.c:85-95 | otherwise not: a timer set after uncounted time goes off before one that was due long ago |
| TimerRuns.NoTimerIsLost | lwip/sys.c:48-236 | every timer asked for is pending with its deadline, has gone off, or was cancelled, once |
| TimerRuns.NoWrapAround | lwip/sys.c:183-230 | no time in the list and no sum of neighbours leaves 32 bits |
| TimerRuns.LoopIsRun | lwip/sys.c:48-98 | the wait loop is such a run |
| Pbufs.FreeKeeps | lwip/pbuf.c:557-600 | pbuf_free keeps every count equal to the outside references plus the links, and every pool buffer either free or in use |
| Pbufs.FreeExactly | lwip/pbuf.c:557-600 | it gives back exactly the buffers at the front without another reference, lowers the count of the one it stops at, and leaves the others as they are |
| Pbufs.FreeOutside | lwip/pbuf.c:557-600 | it uses up exactly the reference it is given |
| PbufFree.RunClean | lwip/pbuf.c:571-580 | in every run the free buffers of the pool are as pbuf_init made them: no references, full length, data at the start |
| Pbufs.LinkKeeps | lwip/pbuf.c:660-670 | linking a chain to the end of another keeps the counts |
| Pbufs.UnlinkKeeps | lwip/pbuf.c:887-901 | cutting a link keeps the counts, with the reference left to the caller |
| Pbufs.TakePoolKeeps | lwip/pbuf.c:135-179 | taking a buffer from the pool keeps the counts and the free list |
| Pbufs.TakeNewKeeps | lwip/pbuf.c:304-340 | a buffer in memory of its own keeps the counts |
| Pbufs.TotIsLocal | lwip/src/include/lwip/pbuf.h:76-79 | right total lengths are the documented sum of the length and the next total length |
| PbufChains.CatKeeps | lwip/pbuf.c:651-671 | pbuf_cat keeps the invariant and joins the chains |
| PbufChains.CatChain | lwip/pbuf.c:651-671 | the joined chain has right total lengths and the contents of both |
| PbufChains.ShrinkKeeps | lwip/pbuf.c:388-443 | pbuf_realloc keeps the invariant and all outside references, and leaves the front of the chain |
| PbufChains.ShrinkChain | lwip/pbuf.c:388-443 | the chain that is left has exactly the new length, right total lengths in 16 bits, and the first new_len bytes |
| PbufPool.PbufMemory.constructor | lwip/pbuf.c:96-130 | pbuf_init builds the free list of 128 buffers, all unused and of full length |
| PbufPool.PbufMemory.FreeChain | lwip/pbuf.c:557-600 | the loop of pbuf_free, and the number it returns, in 8 bits |
| PbufPool.PbufMemory.Free | lwip/pbuf.c:538-601 | pbuf_free of NULL or of a referenced buffer, with its result in 8 bits |
| PbufPool.PbufMemory.Ref | lwip/pbuf.c:629-639 | pbuf_ref |
| PbufPool.PbufMemory.Cat | lwip/pbuf.c:651-671 | pbuf_cat on the memory |
| PbufPool.PbufMemory.Chain | lwip/pbuf.c:689-696 | pbuf_chain keeps the caller's reference |
| PbufPool.PbufMemory.Dechain | lwip/pbuf.c:882-909 | pbuf_dechain isolates the first buffer and leaves all buffers off the chain alone; a rest that stays has its contents and right total lengths; the result is right if and only if pbuf_free freed nothing, or not a multiple of 256 buffers |
| PbufPool.RestStays | lwip/pbuf.c:888-904 | the rest stays exactly if its first buffer has a reference besides the link, that is if pbuf_free frees nothing |
| PbufPool.UnchainKeeps | lwip/pbuf.c:882-909 | pbuf_dechain keeps the invariant and the outside references |
| PbufPool.UnchainRest | lwip/pbuf.c:890-896 | the total length that pbuf_dechain writes into the rest is the one it had, if the chain had right total lengths |
| PbufPool.PbufMemory.Realloc | lwip/pbuf.c:388-443 | pbuf_realloc on the memory: length, total lengths and contents of what is left; buffers off the chain are left alone |
| PbufPool.ShrinkFrame | lwip/pbuf.c:388-443 | a buffer in use that is not on the chain is exactly as it was |
| PbufPool.ExtendKeeps | lwip/pbuf.c:268-299 | the loop of pbuf_alloc keeps the invariant, and ends with one more outside reference exactly if the pool suffices |
| PbufPool.NewChainKeeps | lwip/pbuf.c:241-303 | the same of the whole allocation |
| PbufPool.PbufMemory.AllocPool | lwip/pbuf.c:211-303 | pbuf_alloc from the pool sums to the requested length, fails exactly when the pool has too few buffers, and then leaves the buffers in use and the set of free ones as they were |
| PbufFree.NewChainFills | lwip/pbuf.c:241-299 | the chain has exactly as many buffers as are needed, each with one reference, the first with its data behind the room for headers, and all filled to the end but the last |
| PbufPool.PbufMemory.AllocSingle | lwip/pbuf.c:211-343 | pbuf_alloc of a single buffer, or NULL without memory or for a request that is 0 in 16 bits |
| PbufPool.SingleHasData | lwip/pbuf.c:304-320 | a buffer in RAM has memory for its length if and only if structure, headers and data fit 16 bits when aligned |
| PbufPool.RequestWraps | lwip/pbuf.c:304-311 | a request for 65521 bytes is one for 2 bytes, and succeeds |
| PbufPool.FreeIgnores | lwip/pbuf.c:435-441 | freeing the tail before cutting the link gives the same as the other order |
| PbufRuns.NextKeeps | lwip/pbuf.c:211-909 | every call keeps the invariant, and changes the references that callers hold by exactly what its caller gives or gets |
| PbufRuns.RunKeeps | lwip/pbuf.c:211-909 | over every run of calls chains end, counts are right and the pool is intact |
| PbufRuns.CountsAreReferences | lwip/src/include/lwip/pbuf.h:88-93 | in every state of every run the count of a buffer is the number of pointers to it, from outside and from other buffers |
| PbufRuns.RunStays | lwip/pbuf.c:135-179 | no buffer of the pool is ever lost |
| PbufRuns.NothingHeldNothingUsed | lwip/pbuf.c:538-601 | when nobody holds a reference no buffer is in use, for a buffer in use would need an endless chain in front of it |
| PbufRuns.EverythingReturned | lwip/pbuf.c:211-909 | after every run in which all references were given back, every buffer of the pool is on the free list |
| PbufRuns.FreedRestReturned | lwip/pbuf.c:538-600 | from any state some run makes a chain of 257 buffers without data; pbuf_dechain then frees the last 256 and returns them |
| PbufTotals.NextTotals | lwip/src/include/lwip/pbuf.h:76-79 | every call keeps the documented relation of the total lengths for all buffers in use, if no other buffer links into the chain that it changes |
| PbufTotals.RunTotals | lwip/src/include/lwip/pbuf.h:76-79 | the same over every run of such calls |
| PbufTotals.RightInRuns | lwip/pbuf.c:388-443 | so that in such runs every chain has the right total lengths that pbuf_realloc relies on |
| Dhcp.Writer.Header | lwip/dhcp.c:999-1004 | dhcp_option appends type and length |
| Dhcp.Writer.Short | lwip/dhcp.c:1014-1019 | dhcp_option_short appends two bytes, high byte first |
| Dhcp.Writer.Long | lwip/dhcp.c:1020-1027 | dhcp_option_long appends four bytes, high byte first |
| Dhcp.Writer.Trailer | lwip/dhcp.c:1282-1294 | the trailer writes END and fills the options up to 68 bytes |
| Dhcp.Writer.Options | lwip/dhcp.c:999-1027 | a list of options written header by header and byte by byte is their encoding |
| Dhcp.EncodeMore | lwip/dhcp.c:999-1027 | writing a header and its data adds one option |
| Dhcp.CopyBytes | lwip/dhcp.c:1068-1093 | the copy loop takes the next bytes of the chain, however it is cut |
| Dhcp.Unfold | lwip/dhcp.c:1039-1097 | dhcp_unfold_reply splits the message into its fixed part and its options, or reports missing memory |
| Dhcp.GetOptionPtr | lwip/dhcp.c:1305-1372 | the search loops, with overloaded fields, find what the specification says |
| Dhcp.ScanFinds | lwip/dhcp.c:1310-1336 | behind any bytes, the search finds the first option of a type among encoded options, or nothing |
| Dhcp.OptionsRoundTrip | lwip/dhcp.c:999-1372 | built, closed, cut into any chain, unfolded and searched, the first option of each type is found with its data, and no other |
| DhcpOverload.FieldIsSearched | lwip/dhcp.c:1338-1372 | with overload 1 exactly the first option of the type in the file field is found, with overload 2 that in the sname field |
| DhcpOverload.BothFields | lwip/dhcp.c:1338-1372 | with overload 3 an option in sname is found, and one in file if and only if the options in sname fill it to the last byte |
| DhcpOverload.FileIsHidden | lwip/dhcp.c:1345-1372 | a message whose boot file name, in the file field, is not found |
| DhcpOverload.DataLies | lwip/dhcp.c:1396-1422 | at the place found are the length and the data of the option |
| Dhcp.Exchange | lwip/dhcp.c:999-1422 | the same through the operations themselves: write, close, cut, unfold, search, read the value |
| Dhcp.ValuesRoundTrip | lwip/dhcp.c:1396-1422 | 16-bit and 32-bit values read back as written |
| Arp.RunKeeps | lwip/etharp.c:144-451 | in every run at most one entry is in use for an address, and stable entries hold what was last heard, at its age |
| Arp.LookupIsLastHeard | lwip/etharp.c:686-694 | a hardware address found in the cache is the one last heard from the IP address, less than ARP_MAXAGE ticks ago |
| Arp.HeardIsFound | lwip/etharp.c:331-451 | after hearing from an address it is found unless all entries are pending for others |
| Arp.EvictsOldest | lwip/etharp.c:206-250 | a pending entry is never taken, and a stable one only if no entry is empty and none was heard longer ago |
| Arp.PendingLasts | lwip/etharp.c:788-801 | for every table and every number of ticks: a new request is pending for 2 ticks if the entry it took had age 0, for 3 if it had age 255, and else for 1 |
| Arp.PendingSurvivesTick | lwip/etharp.c:788-801 | a request ends at the tick that ARP_MAXPENDING says if and only if the entry it took had age 0, as a recycled one has |
| Arp.PendingOutlives | lwip/etharp.c:164-198 | 255 ticks after the start a new request outlives ARP_MAXPENDING |
| Arp.PendingDroppedEarly | lwip/etharp.c:788-801 | two ticks after the start a new request is dropped by the next tick |
| ArpRuns.StableAges | lwip/etharp.c:164-198 | under the timer a stable entry stays with its address until its age is ARP_MAXAGE, and then is empty |
| ArpRuns.StepLeaves | lwip/etharp.c:331-451 | hearing and asking leave every entry alone that they do not take and that does not have the address |
| ArpRuns.AskIsPending | lwip/etharp.c:764-801 | asking for an address that is in no entry makes it pending in the entry taken, unless all are pending, and otherwise changes nothing |
| ArpRuns.EntryStays | lwip/etharp.c:144-451 | through any run that neither takes the entry nor brings news from its address it stays for as long as its age allows, and no longer |
| ArpRuns.KnownUntilOld | lwip/etharp.c:686-694 | in such a run an address is found with its hardware address until ARP_MAXAGE ticks after it was heard, and not after |
| ArpRuns.HeardStaysKnown | lwip/etharp.c:331-451 | so what was heard, whenever it can be put in the cache, is known for ARP_MAXAGE ticks |
| Arp.ArpTable.Init | lwip/etharp.c:144-156 | etharp_init empties the table |
| Arp.ArpTable.Timer | lwip/etharp.c:164-198 | etharp_tmr ages every entry and expires the old ones, at the ages of ArpRuns.StableAges and Arp.PendingLasts |
| Arp.ArpTable.FindEntry | lwip/etharp.c:206-250 | find_arp_entry returns the first empty entry or recycles the oldest stable one |
| Arp.ArpTable.UpdateEntry | lwip/etharp.c:331-451 | update_arp_entry on the table |
| Arp.ArpTable.QueryEntry | lwip/etharp.c:764-801 | the table part of etharp_query |
| Arp.ArpTable.Resolve | lwip/etharp.c:686-694 | the search of etharp_output |
| Adler.Adler32 | include/zutil.h:98-124 | from any start value, reducing once per NMAX bytes gives what reducing after every byte gives, and no 32-bit sum overflows; without a buffer the result is 1 |
| Adler.NoOverflow | include/zutil.h:73-75 | the sums of NMAX bytes stay within 32 bits |
| Adler.NmaxIsLargest | include/zutil.h:73-75 | for one byte more they might not |
| Adler.PiecewiseIsWhole | include/zutil.h:85-97 | the checksum of two pieces, one after the other, is that of the whole |
| Adler.AdlerHalves | include/zutil.h:85-124 | from any start value, the low half is that before and the sum of the bytes, the high half that before, the low half for every byte and the weighted sum, modulo 65521 |
| Adler.AdlerFromOne | include/zutil.h:85-124 | from 1 this is the definition of RFC 1950, section 8.2 |
| Ports.PortCounter.NewPort | lwip/tcp.c:473-504 | with fewer PCBs than ports the search ends, with the next port round the range that no PCB on any list holds |
| Ports.Pigeonhole | lwip/tcp.c:481-503 | distinct ports that are all taken are not more than the PCBs |
| Ports.UdpEphemeral | lwip/udp.c:591-611 | the lowest free port from 4096 up, or ERR_USE exactly when all ports from 4096 to 0x7ffe are taken |

## Left out

- SYN, FIN, RST, the handshake and teardown, keepalive, urgent data: the stream theorems are about data
  segments. Trimming a segment keeps its FIN flag, which the models do not have.
- Congestion control, the estimation of round-trip times, and the test whether an acknowledgement is a
  duplicate: the send window is an arbitrary number in every step, and a flag says whether an old
  acknowledgement triggers a fast retransmission.
- The chain of buffers inside of a TCP segment: a segment holds its bytes and its length field. The stale
  total length that front trimming leaves in a chain of several buffers (lwip/tcp_in.c:920-926) is not
  modelled.
- ControlBlock.TcpPcb.ReceiveAck: an acknowledgement has to lie within 2^31 - 2^17 of lastack, where 32-bit
  comparison agrees with the order of the numbers.
- ControlBlock.TcpPcb.ReceiveData: a segment has to lie within 2^31 - 2^17 of rcv_nxt, for the same reason.
- Connections.Connection.AckArrives: the acknowledgement must not be 2^31 - 2^17 or more old.
- Connections.Connection.SegmentArrives: the segment must not be 2^31 - 2^17 or more old.
- Connections.Converse: as Connections.Connection.Play.
- Connections.Connection.Play: one direction of data, and nothing that arrives is 2^31 - 2^17 or more old.
- IpReass.Receive: the data of a fragment must not end exactly at the end of the buffer, where the bitmap has
  no byte, and a packet has to have the bytes its length promises.
- IpReass.FragmentThenReassemble: the datagram is not itself a fragment and has no IP options, which ip_frag
  would take for data.
- IpReassembly.Reassembler.Receive: as IpReass.Receive; and the copy of the finished datagram into a new chain is
  its bytes.
- IpReassembly.Reassembler.Mark: the end has to lie before the end of the buffer, as MarkInRange says.
- IpReassembly.Reassembler.Accept: the same.
- IpFrag.Frag: the buffer with the link-level header in front of each frame and its reference counts.
- PbufPool.PbufMemory.Cat: the second chain must not lead back to the end of the first, which would make a
  circle.
- PbufPool.PbufMemory.Chain: the same.
- PbufPool.PbufMemory.Realloc: total lengths have to be right on the chain, as PbufTotals.RightInRuns says they
  are; a buffer outside of the chain that links into it keeps its old total length.
- PbufPool.PbufMemory.AllocSingle: when the wrapped size is below that of the structure, what the structure itself
  then overlaps is not modelled.
- Pbufs.AddRef: the count has no upper limit of 16 bits.
- Dhcp.Unfold: the message has its fixed part and no buffer of the chain is empty.
- Dhcp.GetOptionPtr: the options do not end inside of an option header, where the source reads on.
- Ports.UdpEphemeral: the search for a port only, not the test for a double bind or the list of PCBs.
- mem_reallocm, pbuf_header, pbuf_take, pbuf_queue and pbuf_dequeue, inet_chksum_pbuf, inet_aton and
  inet_ntoa, the memp free lists.
- sys_sem_wait_timeout and sys_msleep: calls of the modelled functions. sys.c is compiled out in this build
  (lwip/lwipopts.h:35).
- The DHCP state machine, ARP packet building and queueing (ARP_QUEUEING is 0), raw sockets, SO_REUSE.
- Semaphores, statistics, debug output: the stack is single-threaded here. Assertions of the source are
  preconditions.
- Hardware, video modes, file systems, the web server, menus and everything else of the boot loader.
