# Verified models of the lwIP core and the upload of the app chooser

The chooser's firmware bundles an lwIP stack; nearly all of its hard logic is in there. This project models
the parts of it whose correctness depends on many steps working together, and the chooser's own chunked upload,
and proves what they promise over every run.

Each subject has two halves. A specification on mathematical values (unbounded stream positions, sequences,
maps) gives every operation as a function, and its theorems speak of all runs. A class or a set of methods in
the form of the C code (32-bit wrapping fields, linked structures, loops, in-place writes) is proved to refine
that specification step by step, so that the theorems carry over.

| files | subject |
|---|---|
| Words | the machine's integers, shared by all |
| SeqArith | 32-bit sequence numbers and their comparison |
| Reassembly, ReassemblyTheorems, ReassemblyRuns, TcpReceiver | TCP receive side: trimming, out-of-order queue, delivery, advertised window |
| SendQueue, SendQueueTheorems, SendQueueSizes, SendQueueRuns, TcpSender | TCP send side: segmentation, output, acknowledgment, retransmission |
| EndToEnd | both sides joined by an unreliable network |
| HeapLayout, Heap, HeapTheorems | the first-fit heap |
| SelectProtocol, SelectTheorems, SelectSockets | select and event_callback as an interleaving protocol |
| InternetSum, Checksum | the Internet checksum in all its versions |
| PbufChains, PbufTheorems, PbufStore | pbuf reference counts and chains |
| DnsTable, DnsTheorems, DnsClient | the resolver tables |
| DhcpLeases, DhcpTheorems, DhcpServer | the lease list of the DHCP server |
| Timers, TimerTheorems, TimerList | the delta list of timeouts, and the mailbox that keeps time for it |
| MemPool | fixed-size pools and their sanity check |
| Upload | the paged flash upload |

## Configuration

Little-endian, 4-byte alignment, NO_SYS=0, IPv4 only, TCP_QUEUE_OOSEQ=1 without limits on ooseq,
LWIP_WND_SCALE=0, timestamps off, checksums computed on output. TCP_OVERSIZE, LWIP_NETIF_TX_SINGLE_PBUF, the
segment size, window sizes and queue limits are parameters. FreeRTOS ticks every 10 ms (sdkconfig:222). For the resolver ESP_DNS=1, all of LWIP_DNS_SECURE,
DNS_MAX_RETRIES=4, any number of servers and entries. The heap and the pools are modelled as opt.h configures
them by default (MEM_LIBC_MALLOC=0, MEMP_MEM_MALLOC=0, MEM_USE_POOLS=0, 16-bit mem_size_t); lwipopts.h of this
port replaces both by the C library's malloc. MEMP_SANITY_CHECK is off by default; its loop is modelled as
written. TCP_SEQ_LT and its relatives, FOLD_U32T, SWAP_BYTES_IN_WORD and TCP_TCPLEN have their usual meaning.

Memory shortage, the verdict of the IP layer, the peer's window, random numbers, how long the mailbox waits and the
outcome of option parsing are parameters of the steps, and the theorems hold for all their values. Ghost
parameters of methods (irs, positions, views) only relate the fields to the specification.

## Where code and promise part

- A first out-of-order segment is queued untrimmed though it overruns the right window edge, and so is one that is
  put in front of a queued one (GoodIffNotOverrun, OverrunExample). The receiver theorems ask for this not to happen.
- Fast retransmit leaves the queues contiguous only together with the output that follows it, and only if that
  sends the segment (FastRetransmitIff, WriteAfterRexmitExample).
- A peer whose first window is below 2 bytes is sent whole segments, and a later, larger window makes segments
  smaller. What is queued then exceeds mss_local, and the next tcp_write fails its assertion "mss_local is too
  small". OfferFitsIff gives the exact condition, ShrinkExample an input. The queues stay in order even so.
- sys_arch_mbox_fetch counts a message that comes before the next tick as one millisecond, and waits for a delay
  rounded down to whole ticks of 10 ms. So timeouts can fire early: one of less than 10 ms at once, one of n ms after
  n messages within a tick (ShortDelayExample, ManyMessagesExample). FiresLateBy says by exactly how much,
  TightStepIff which steps of a mailbox do no harm, PortEarliness how early it can get.
- A piggybacked FIN is not counted in snd_lbb; the tiling theorem says so with one term.
- A heap request above 0xFFFC rounds to a small block (RoundedCovers, RoundingExample).
- A DHCP pool that ends with .255 hands out the address behind it (OneTooMany, InPoolIff).
- kill_oldest_dhcps_pool is said to remove the oldest lease, but never considers the head of the list
  (RemovesOldestIff, YoungerRemovedExample).
- pbuf_free counts in eight bits, so pbuf_dechain returns a tail that is gone if 256 pbufs go with it, or a multiple
  of that (PbufDechain has the exact condition, LongTailExample an input).
- lwip_select can sleep on a socket that lwip_selscan calls ready, if all that is there are data left from a read
  (SleepsWhileReady, KeptDataExample).
- The resolver can refuse a query although a completed entry could be reused, because ages are counted in eight bits
  (RefusedIff; WrapExample is a run from dns_init). That takes a query under way (RefusalNeedsQuery).
- With ESP_DNS a response with an error code is ignored, so such a query ends by its retries (AnsweredAtOnce,
  GivenUpExactly); the comment in the source says the callback is informed.
- The partial checksum tests q->len where it should test the part summed; that does no harm
  (InetChksumPseudoPartial).

## Model

| member | source | states |
|---|---|---|
| `ReassemblyRuns.ReassemblyIsExact` | components/lwip/core/tcp_in.c:1230-1483 | from a fresh connection, for every run of arriving slices of one peer stream (lost, repeated, reordered, cut anew), recved calls, transmissions and queue purges: what was delivered is exactly the stream prefix that ends at rcv_nxt, all of it once the FIN is taken; rcv_wnd accounts for every unread byte; the announced edge is never beyond the real one |
| `ReassemblyRuns.RunGood` | components/lwip/core/tcp_in.c:1230-1646 | the connection invariant holds after every run from any good state, and the announced right edge has not moved left (section 4.2.2.16 of RFC 1122) |
| `ReassemblyRuns.StepGood` | components/lwip/core/tcp_in.c:1230-1646 | each event keeps the invariant, and none moves the announced right edge left |
| `ReassemblyRuns.GapFilled` | components/lwip/core/tcp_in.c:1330-1478 | progress: when a segment fills the gap at rcv_nxt, everything up to the first byte that neither it nor ooseq holds is delivered at once |
| `ReassemblyRuns.FinTaken` | components/lwip/core/tcp_in.c:1336-1478 | and the FIN with it: when a segment fills the gap up to the end of the stream and it or a queued one carries the FIN, all of the stream is delivered, the connection is closed and rcv_nxt counts the FIN |
| `ReassemblyRuns.OutOfOrderQueued` | components/lwip/core/tcp_in.c:1485-1615 | an out-of-order slice inside the window is put on ooseq byte by byte if memory allows, nothing is delivered, and the acknowledgment announces the edge |
| `ReassemblyRuns.PurgeForgets` | components/lwip/core/tcp.c:983-998 | after ooseq was given up a segment in sequence delivers exactly its own new bytes inside the window, and closes the stream exactly if its FIN lies there |
| `ReassemblyRuns.OutsideIgnored` | components/lwip/core/tcp_in.c:1641-1646 | a segment wholly behind rcv_nxt or beyond the window changes nothing but the edge announced with its acknowledgment |
| `ReassemblyRuns.DrainReaches` | components/lwip/core/tcp_in.c:1442-1478 | no queued byte that is contiguous with rcv_nxt stays on ooseq |
| `ReassemblyRuns.QueueStaysOrdered` | components/lwip/core/tcp_in.c:1234-1615 | whatever segment arrives, ooseq stays strictly sorted and disjoint, starts after rcv_nxt, and carries a FIN on its last segment only |
| `ReassemblyTheorems.EnqueueOrdered` | components/lwip/core/tcp_in.c:1512-1615 | the same for one out-of-order insertion, whatever it overlaps |
| `ReassemblyRuns.EnqueueHolds` | components/lwip/core/tcp_in.c:1512-1615 | byte by byte, what ooseq holds after any segment beyond rcv_nxt, with or without FIN, inside the window or overrunning it, behind a queued FIN or not |
| `ReassemblyRuns.EnqueueKeepsSlices` | components/lwip/core/tcp_in.c:1512-1615 | for slices of one stream: inside the window ooseq holds what it held and what the segment brings, FIN or not; the one loss is the tail of a queued segment that contains the new one |
| `ReassemblyTheorems.OosInsertOrdered` | components/lwip/core/tcp_in.c:905-935 | tcp_oos_insert_segment keeps the queue sorted and disjoint |
| `ReassemblyRuns.OosInsertHolds` | components/lwip/core/tcp_in.c:905-935 | tcp_oos_insert_segment loses no byte and invents none, unless the new segment carries a FIN |
| `ReassemblyRuns.GoodIffNotOverrun` | components/lwip/core/tcp_in.c:1497-1498 | exact condition: a slice keeps the invariant if and only if it does not overrun the right window edge in one of the branches that do not trim |
| `ReassemblyRuns.OverrunExample` | components/lwip/core/tcp_in.c:1497-1498 | a three-byte segment, two bytes inside the window, is queued whole on an empty ooseq |
| `ReassemblyRuns.EnqueueFits` | components/lwip/core/tcp_in.c:1591-1608 | ooseq stays inside the window if and only if the segment does not overrun it untrimmed |
| `ReassemblyRuns.UpdateAnnWndGood` | components/lwip/core/tcp.c:613-636 | recomputing rcv_ann_wnd restores 0 <= rcv_ann_wnd <= rcv_wnd and never shrinks what was announced |
| `ReassemblyRuns.RecvedGood` | components/lwip/core/tcp.c:647-683 | tcp_recved of delivered bytes keeps the invariant and leaves the announced edge where it is |
| `ReassemblyRuns.RecvedAnnounces` | components/lwip/core/tcp.c:613-683 | what tcp_recved makes of rcv_wnd, rcv_ann_wnd and the inflation: all of the window is announced if that moves the edge by half the window or one mss, otherwise the edge stays |
| `ReassemblyRuns.DeliveryAnnounces` | components/lwip/core/tcp_in.c:1409-1453 | the same when data are delivered, and the right edge of rcv_wnd stays |
| `ReassemblyRuns.ReadAllReopens` | components/lwip/core/tcp.c:647-683 | after any run, once all that was delivered is read and no FIN is owed, the next header announces the full window if that moves the edge far enough |
| `ReassemblyRuns.ShutWindowOpens` | components/lwip/core/tcp.c:647-683 | a window that was shut never stays so: when all is read the full window is announced, and the update for it is due at once |
| `SeqArith.Compare` | components/lwip/core/tcp_in.c:1265-1328 | the wrapping 32-bit comparisons decide the order of stream positions less than half the sequence space apart, in both directions |
| `TcpReceiver.OosInsertSegment` | components/lwip/core/tcp_in.c:905-935 | the loop over wrapped sequence numbers computes OosInsert on stream positions |
| `TcpReceiver.MergeQueued` | components/lwip/core/tcp_in.c:1361-1407 | the in-sequence merge with ooseq (FIN, covered segments, right trim) computes the same function as tcp_oos_insert_segment |
| `TcpReceiver.InsertByWalking` | components/lwip/core/tcp_in.c:1512-1615 | the walk along ooseq, in all its branches, computes Enqueue |
| `TcpReceiver.TrimPrev` | components/lwip/core/tcp_in.c:1564-1568 | the segment in front is cut where the new one starts, exactly if it reaches that far |
| `TcpReceiver.Pcb.QueueOutOfOrder` | components/lwip/core/tcp_in.c:1492-1615 | ooseq becomes Enqueue of it, or stays as it is if no copy could be made |
| `TcpReceiver.Pcb.TrimToWindow` | components/lwip/core/tcp_in.c:1336-1356 | data and FIN beyond the right edge are cut off, nothing else |
| `TcpReceiver.Pcb.TrimFront` | components/lwip/core/tcp_in.c:1265-1323 | the part of a segment before rcv_nxt is removed, in wrapped arithmetic |
| `TcpReceiver.Pcb.ConsumeQueue` | components/lwip/core/tcp_in.c:1442-1478 | the drain loop hands over the data of Drain and leaves windows and queue as it says |
| `TcpReceiver.Pcb.DeliverInSequence` | components/lwip/core/tcp_in.c:1330-1478 | trimming, merging and draining together refine Deliver |
| `TcpReceiver.Pcb.TcpReceive` | components/lwip/core/tcp_in.c:1230-1646 | the whole text part of tcp_receive on u32 and u16 fields refines one Segment step of Reassembly, so the theorems above hold of the fields; recv_data is exactly what was added to the delivered stream |
| `TcpReceiver.Pcb.UpdateRcvAnnWnd` | components/lwip/core/tcp.c:613-636 | in 32-bit arithmetic: rcv_ann_wnd and the returned inflation, both branches, and the source's own assertion holds |
| `TcpReceiver.Pcb.TcpRecved` | components/lwip/core/tcp.c:647-683 | refines the Recved step; a window update is sent exactly when the edge moves by the threshold |
| `TcpReceiver.Pcb.TransmitHeader` | components/lwip/core/tcp_out.c:109-131 | every header announces rcv_ann_wnd and records the edge announced |
| `TcpReceiver.Pcb.CreditFin` | components/lwip/core/tcp_in.c:459-468 | refines the step that credits the FIN's sequence number to rcv_wnd |
| `ReassemblyRuns.FinCreditedOnce` | components/lwip/core/tcp_in.c:459-468 | the sequence number of the FIN is given back to rcv_wnd once and not again |
| `TcpReceiver.Pcb.PurgeOoseq` | components/lwip/core/pbuf.c:117-131 | emptying ooseq refines the PurgeOoseq step |
| `SendQueueRuns.SendQueuesTile` | components/lwip/core/tcp_out.c:646-725 | from a fresh connection, over every run of write, close, output, ACK, RTO, fast retransmit and window offers: unacked ++ unsent is one gapless chain of slices of what was written, its head holds lastack, it ends at snd_lbb (one more if a FIN rides on data), snd_buf + (snd_lbb - lastack) is constant, snd_queuelen is the pbuf count, every byte acknowledged was reported once, and if the first window is at least 2 bytes no segment exceeds mss_local |
| `SendQueueRuns.RunGood` | components/lwip/core/tcp_out.c:972-1129 | the invariant behind it holds after every legal run |
| `SendQueueRuns.StepGood` | components/lwip/core/tcp_out.c:972-1129 | every operation keeps the invariant |
| `SendQueueRuns.WriteExact` | components/lwip/core/tcp_out.c:421-742 | tcp_write is all or nothing and byte exact: the queued payload grows by exactly the argument, or nothing but TF_NAGLEMEMERR changes, wherever memory runs out |
| `SendQueueRuns.WriteRefusedIff` | components/lwip/core/tcp_out.c:312-642 | exact condition: an open tcp_write fails if and only if it exceeds snd_buf or the queue limit, or the pbufs and segments that the bytes need cannot be had or do not fit |
| `SendQueueRuns.RefusedWriteSends` | components/lwip/core/tcp_out.c:326-344 | after a tcp_write refused for want of room the next output leaves nothing inside the window behind, Nagle or not |
| `SendQueueSizes.WriteFills` | components/lwip/core/tcp_out.c:444-640 | no short segment in the middle: new segments are full but for the last, and none is added before the last unsent one is full |
| `SendQueueSizes.OversizeIsLeast` | components/lwip/core/tcp_out.c:237-281 | how much room a new pbuf has when oversizing is a choice: the smallest multiple of 4 with TCP_OVERSIZE to spare, or max, exactly if Nagle or more data may fill it |
| `SendQueueTheorems.WriteGood` | components/lwip/core/tcp_out.c:646-725 | a write keeps the tiling, across the oversize, chained and new-segment phases |
| `SendQueueSizes.CommitFits` | components/lwip/core/tcp_out.c:444-640 | no segment grows beyond mss_local, spare room included |
| `SendQueueRuns.SizesWithinMss` | components/lwip/core/tcp_out.c:391-640 | over every run whose window offers meet the condition of OfferFitsIff: no queued segment, spare room included, exceeds mss_local, and the assertion of tcp_write holds |
| `SendQueueSizes.StepFits` | components/lwip/core/tcp_out.c:391-640 | each step keeps the sizes, a window offer if and only if it meets its condition |
| `SendQueueSizes.OfferFitsIff` | components/lwip/core/tcp_in.c:973-982 | exact condition: raising snd_wnd_max leaves every queued segment, spare room included, within mss_local if and only if mss_local does not shrink or nothing queued exceeds half the new window |
| `SendQueueSizes.ShrinkExample` | components/lwip/core/tcp_out.c:455 | after a first window of 0 and a write of four bytes, an offer of 2 breaks the sizes and the assertion of the next tcp_write |
| `SendQueueSizes.StepSized` | components/lwip/core/tcp_out.c:452-537 | whatever window is offered, no segment outgrows one mss and the send buffer, as long as that assertion holds |
| `SendQueueRuns.PayloadIs` | components/lwip/core/tcp_out.c:697-725 | the queues hold exactly the last bytes written |
| `SendQueueTheorems.CloseGood` | components/lwip/core/tcp_out.c:140-165 | a FIN, piggybacked or in its own segment, keeps the chain |
| `SendQueueRuns.CloseQueuesFin` | components/lwip/core/tcp_out.c:140-165 | a close queues the FIN right behind the last byte written, on the last segment and no other, without touching a queued byte; it fails if and only if nothing is unsent and no segment can be had, and then changes nothing but TF_NAGLEMEMERR |
| `SendQueueTheorems.OutputGood` | components/lwip/core/tcp_out.c:1039-1127 | sending moves segments from unsent to unacked and changes neither their order nor their contents, however many the IP layer takes |
| `SendQueueTheorems.RexmitRtoGood` | components/lwip/core/tcp_out.c:1363-1394 | requeueing everything after a timeout and sending again keeps the tiling |
| `SendQueueRuns.OutputSends` | components/lwip/core/tcp_out.c:999-1129 | progress: what is sent is the head of unsent, in order, and sending stops only because nothing is left, the IP layer refuses, the window is full or Nagle's algorithm holds the rest back |
| `SendQueueRuns.OutputExact` | components/lwip/core/tcp_out.c:999-1129 | exactly which segments leave, by the fields of queues and pcb: every one that ends inside the window and is not held back, in order, until the IP layer refuses one, and none that must wait |
| `SendQueueRuns.LeftIff` | components/lwip/core/tcp_out.c:1039-1055 | exact condition of Nagle's algorithm: a head inside the window stays if and only if it is the last segment and short, something is unacknowledged, and neither TF_NODELAY, recovery, a full queue or buffer, a memory error nor a FIN overrides |
| `SendQueueRuns.RtoResends` | components/lwip/core/tcp_out.c:1363-1394 | a timeout sends the first unacknowledged segment again if window and IP layer allow |
| `SendQueueRuns.FastResends` | components/lwip/core/tcp_out.c:1404-1482 | and so does the third duplicate acknowledgment |
| `SendQueueRuns.RecoveryIsOnce` | components/lwip/core/tcp_out.c:1451-1482 | a recovery starts once, further duplicates only let output go on, and exactly an acknowledgment of something new ends it |
| `SendQueueTheorems.AckGood` | components/lwip/core/tcp_in.c:1061-1196 | an acknowledgment of any position removes exactly the covered segments of the whole queue, including those back on unsent, and keeps all accounts |
| `SendQueueTheorems.OldAck` | components/lwip/core/tcp_in.c:1157-1196 | an acknowledgment that is not new removes nothing |
| `SendQueueTheorems.ReportAcked` | components/lwip/core/tcp_in.c:1080-1132 | the sent callback is told of each acknowledged byte once, and not of the FIN |
| `SendQueueTheorems.FastRetransmitIff` | components/lwip/core/tcp_out.c:1404-1482 | fast retransmit together with the tcp_output that follows keeps the tiling if and only if the segment really leaves again, or was the only unacknowledged one |
| `SendQueueTheorems.ResendRestores` | components/lwip/core/tcp_out.c:1096-1107 | a retransmitted head goes back to its place in unacked |
| `SendQueueRuns.WriteAfterRexmitExample` | components/lwip/core/tcp_out.c:1404-1442 | why the two belong together: after a legal run of two writes, each sent at once, a tcp_write in between makes a segment that repeats no part of what was written, and the invariant fails |
| `SendQueueSizes.MssLocalGrows` | components/lwip/core/tcp_out.c:391-393 | exact condition under which a larger peer window does not shrink mss_local |
| `SendQueueTheorems.StepBounded` | components/lwip/core/tcp_out.c:338-345 | snd_queuelen never exceeds TCP_SND_QUEUELEN, but for one FIN |
| `EndToEnd.DeliveredIsWritten` | components/lwip/core/tcp_in.c:1230-1483 | sender run, a network that may lose, repeat, delay and reorder, receiver run: the receiving application has a prefix of what the sending one wrote, and all of it once the FIN is delivered |
| `EndToEnd.LoopDelivers` | components/lwip/core/tcp_out.c:1039-1061 | the same in a closed loop, where the sender keeps within what the receiver has announced and both take their steps in any order: no byte ever sent lies beyond the right edge of the receiver's window, so nothing but a FIN can overrun it, and that alone is excluded |
| `TcpSender.Pcb.constructor` | components/lwip/core/tcp.c:1461-1596 | the fields start as the empty state of SendQueue |
| `TcpSender.Pcb.WriteChecks` | components/lwip/core/tcp_out.c:312-353 | the error and flag of tcp_write_checks, case by case |
| `TcpSender.Pcb.TcpWrite` | components/lwip/core/tcp_out.c:372-742 | the three-phase method on u32/u16 fields refines one DoWrite step: same result code, and fields rolled back on every failure |
| `TcpSender.NewSegments` | components/lwip/core/tcp_out.c:545-640 | phase 3's loop builds exactly the segments of Chop, or fails when memory or the queue limit does |
| `TcpSender.FillTail` | components/lwip/core/tcp_out.c:452-537 | phases 1 and 2 plan exactly PlanTail, with the room counted in 16 bits |
| `TcpSender.Pcb.CommitWrite` | components/lwip/core/tcp_out.c:646-725 | the commit leaves the fields of Commit |
| `TcpSender.Pcb.TcpClose` | components/lwip/core/tcp.c:178-278 | refines one DoClose step |
| `TcpSender.Pcb.EnqueueFlags` | components/lwip/core/tcp_out.c:755-862 | the FIN segment, with the error cases |
| `TcpSender.Pcb.TcpOutput` | components/lwip/core/tcp_out.c:972-1129 | the output loop refines one DoOutput step, empty ACK branch included |
| `TcpSender.Pcb.SendSegments` | components/lwip/core/tcp_out.c:1039-1127 | the loop with Nagle's test and the failing send computes SendLoop |
| `TcpSender.InsertOnUnacked` | components/lwip/core/tcp_out.c:1087-1113 | a sent segment is put at its sorted place, compared in wrapped arithmetic |
| `TcpSender.Pcb.ReceiveAck` | components/lwip/core/tcp_in.c:1061-1196 | old, new and out-of-range acknowledgments refine one DoAck step |
| `TcpSender.RemoveUnacked` | components/lwip/core/tcp_in.c:1114-1139 | removes exactly the covered head of unacked and reports it |
| `TcpSender.RemoveUnsent` | components/lwip/core/tcp_in.c:1169-1196 | removes exactly the covered head of unsent, never beyond snd_nxt |
| `TcpSender.Pcb.TcpRexmitRto` | components/lwip/core/tcp_out.c:1363-1394 | refines one Timeout step |
| `TcpSender.Pcb.TcpRexmit` | components/lwip/core/tcp_out.c:1404-1442 | the first unacked segment goes to its sorted place on unsent |
| `TcpSender.Pcb.FastRetransmitAndOutput` | components/lwip/core/tcp_out.c:1451-1482 | refines one ThirdDupAck step |
| `TcpSender.Pcb.NoteWindow` | components/lwip/core/tcp_in.c:973-982 | refines one OfferWindow step |
| `HeapTheorems.RunGood` | components/lwip/core/mem.c:333-656 | any run of mem_malloc, mem_free and mem_trim leaves aligned blocks of legal size that tile the heap with no two free neighbours |
| `HeapTheorems.MallocServes` | components/lwip/core/mem.c:516-656 | for every request up to 0xFFFC: if some free block fits, exactly one live block is added, large enough, aligned, apart from all others, which stay; otherwise nothing changes |
| `HeapTheorems.RoundedCovers` | components/lwip/core/mem.c:530-537 | exact condition: 16-bit rounding covers the request if and only if it is at most 0xFFFC |
| `HeapTheorems.RoundedIsLeast` | components/lwip/core/mem.c:530-537 | up to there the rounded size is the least multiple of 4 that holds the request and MIN_SIZE |
| `HeapTheorems.MallocIsThrifty` | components/lwip/core/mem.c:552-640 | the block served lies as low as any that fits, and is split unless what is left could be no block |
| `HeapTheorems.TrimIsThrifty` | components/lwip/core/mem.c:427-505 | mem_trim cuts the block to the size asked for unless what is left could be no block |
| `HeapTheorems.RoundingExample` | components/lwip/core/mem.c:530-537 | a request of 0xFFFE bytes is served with 12 |
| `HeapTheorems.FreeAllGivesHole` | components/lwip/core/mem.c:334-379 | freeing all live blocks in any order gives back the single hole |
| `HeapTheorems.RunThenFreeAll` | components/lwip/core/mem.c:297-325 | after any run from mem_init, freeing what is live restores the heap of mem_init |
| `HeapTheorems.ReleaseLiveAt` | components/lwip/core/mem.c:334-379 | mem_free ends the life of one block and of no other |
| `HeapTheorems.StoresKeepRep` | components/lwip/core/mem.c:259-291 | stores into a live payload cannot damage the list |
| `HeapLayout.FreeGood` | components/lwip/core/mem.c:258-291 | coalescing keeps tiling, sizes and alignment and leaves no two free neighbours |
| `HeapLayout.TrimGood` | components/lwip/core/mem.c:392-505 | so does shrinking in place |
| `HeapLayout.TakeGood` | components/lwip/core/mem.c:552-640 | so does taking a block, split or whole |
| `HeapLayout.TrimLive` | components/lwip/core/mem.c:392-505 | mem_trim leaves every other live block as it is |
| `Heap.MemHeap.constructor` | components/lwip/core/mem.c:297-325 | mem_init: one hole, lfree at its start, nothing used |
| `Heap.MemHeap.PlugHolesAt` | components/lwip/core/mem.c:258-291 | the header writes merge with both free neighbours, adjust lfree, and touch no live payload |
| `Heap.MemHeap.MemFree` | components/lwip/core/mem.c:334-379 | next/prev list, lfree (lowest free block) and the used statistic stay exact; pointers outside the heap are ignored; live payloads untouched |
| `Heap.MemHeap.MemTrim` | components/lwip/core/mem.c:392-505 | shrinks in place or returns NULL, branch by branch; payload bytes kept untouched |
| `Heap.MemHeap.MemMalloc` | components/lwip/core/mem.c:517-656 | NULL exactly when no free block fits; otherwise the first fit is taken; lfree is again the lowest free block; no live payload touched |
| `Heap.MemHeap.ScanForFit` | components/lwip/core/mem.c:552-572 | starting the scan at lfree finds the first fit of the whole heap |
| `Heap.MemHeap.NextFree` | components/lwip/core/mem.c:615-634 | lfree is moved to the next free block or ram_end |
| `SelectTheorems.NoLostEvent` | components/lwip/api/sockets.c:1862-1933 | counted by the events posted in the run, in every interleaving: if more data came for a socket than were taken, or it was last said to be able to send, or an error was posted, and a call that selects for this sleeps, it has been signalled or a callback is on its way to it |
| `SelectTheorems.EventsAreCounted` | components/lwip/api/sockets.c:1862-1883 | over any run rcvevent is its start value plus RCVPLUS minus RCVMINUS, sendevent what was posted last, errevent whether an error was posted |
| `SelectTheorems.SignalledForCause` | components/lwip/api/sockets.c:1897-1924 | a call is signalled only by a callback for a socket of its sets with an event that it waits for |
| `SelectTheorems.PollNeverSleeps` | components/lwip/api/sockets.c:1642-1650 | over any run a call with a zero timeout never goes on the list and never sleeps |
| `SelectTheorems.FoundNeverSleeps` | components/lwip/api/sockets.c:1642-1733 | over any run a call whose scan found something never sleeps, and after the first scan never goes on the list |
| `SelectTheorems.FoundForCause` | components/lwip/api/sockets.c:1554-1616 | lwip_selscan reports a socket only if it is in the sets and has such an event or data left from a read |
| `SelectTheorems.NoLostWakeup` | components/lwip/api/sockets.c:1673-1772 | in every interleaving of any number of select calls and callbacks: if a call sleeps unsignalled while a socket of its sets has an event, some callback for that socket has yet to reach its node |
| `SelectTheorems.SleepsWhileReady` | components/lwip/api/sockets.c:1554-1616 | which sleeps are covered: if a call sleeps unsignalled while lwip_selscan would call a socket ready, a callback is on its way to it or data left from a read are all that is there |
| `SelectTheorems.KeptDataExample` | components/lwip/api/sockets.c:1554-1616 | a run to the sleep not covered: a reader leaves part of a buffer behind after the second scan |
| `SelectTheorems.WakesUp` | components/lwip/api/sockets.c:1895-1933 | and that callback signals it, within as many regions as there are nodes before it |
| `SelectTheorems.WakesUpAmongOthers` | components/lwip/api/sockets.c:1895-1933 | and whatever regions of other threads come in between: while the call still waits for its wakeup, the callback stays on its way, and takes fewer regions than there are nodes before it plus one list length for each change of select_cb_ctr |
| `SelectTheorems.NoStaleNode` | components/lwip/api/sockets.c:1925-1932 | no callback follows the link of a node that has left the list |
| `SelectTheorems.WaitingIsExact` | components/lwip/api/sockets.c:1688-1757 | select_waiting is always the number of calls that are counted on the socket |
| `SelectTheorems.StepKeeps` | components/lwip/api/sockets.c:1673-1935 | every atomic region of every thread keeps the protocol invariant |
| `SelectTheorems.ResumeKeeps` | components/lwip/api/sockets.c:1925-1933 | restarting when select_cb_ctr changed keeps it |
| `SelectTheorems.LowerKeeps` | components/lwip/api/sockets.c:1735-1757 | taking select_waiting back, also after a socket was found invalid, keeps it |
| `SelectSockets.Sockets.PutOnTop` | components/lwip/api/sockets.c:1673-1686 | the doubly linked list gets the node at its head, and the counter moves |
| `SelectSockets.Sockets.TakeOff` | components/lwip/api/sockets.c:1758-1772 | unlinking leaves exactly the other nodes, linked both ways |
| `SelectSockets.Sockets.EventRegion` | components/lwip/api/sockets.c:1860-1926 | the first region: event recorded, first node visited if anybody waits |
| `SelectSockets.Sockets.NextRegion` | components/lwip/api/sockets.c:1928-1932 | a later region visits the next node, or the first if the list changed |
| `SelectSockets.Sockets.VisitNode` | components/lwip/api/sockets.c:1897-1924 | a node is signalled exactly if it is not yet and waits for an event that is set |
| `SelectSockets.Sockets.RaiseWaiting` | components/lwip/api/sockets.c:1695-1707 | one more counted, or the socket reported invalid |
| `SelectSockets.Sockets.LowerWaiting` | components/lwip/api/sockets.c:1741-1755 | one less counted, never below zero |
| `SelectSockets.Sockets.PollSocket` | components/lwip/api/sockets.c:1554-1616 | lwip_selscan's test of one socket under the lock |
| `Checksum.StandardChksum1` | components/lwip/core/inet_chksum.c:82-117 | equals the flat sum of section 2 of RFC 1071 for every buffer of up to 0x20000 bytes, whatever its parity |
| `Checksum.RfcExample` | components/lwip/core/inet_chksum.c:82-117 | the flat sum that all versions are proved equal to gives the value of the example in section 3 of RFC 1071 |
| `Checksum.StandardChksum2` | components/lwip/core/inet_chksum.c:135-176 | equals the same flat sum, from odd and even addresses |
| `Checksum.StandardChksum3` | components/lwip/core/inet_chksum.c:191-258 | equals the same flat sum at every alignment and length, through 32-bit wrap and carry |
| `Checksum.AccumulatorBound` | components/lwip/core/inet_chksum.c:126-135 | exact condition: the 32-bit accumulator of version 2 holds every sum, from an even or an odd address on, if and only if the length is at most 0x20002; the stated bound is 0x20000 |
| `Checksum.InetChksumPbuf` | components/lwip/core/inet_chksum.c:570-592 | for any split into pbufs, odd ones included, the chain sum is the sum of the concatenation |
| `Checksum.InetChksumPseudo` | components/lwip/core/inet_chksum.c:262-330 | chain and pseudo-header sums equal the flat sum of both together |
| `Checksum.InetChksumPseudoPartial` | components/lwip/core/inet_chksum.c:401-476 | equals the flat sum over the first chksum_len bytes, although the swap test reads q->len |
| `Checksum.InetChksum` | components/lwip/core/inet_chksum.c:558-561 | the complement of the flat sum |
| `Checksum.ReceiverGetsZero` | components/lwip/core/tcp_in.c:146-154 | a receiver that sums a segment with its own checksum in place gets 0 |
| `Checksum.SingleByteDetected` | components/lwip/core/tcp_in.c:146-154 | and does not if exactly one byte differs |
| `PbufTheorems.CountsAreExact` | components/lwip/core/pbuf.c:661-883 | over any run of alloc, ref, free, cat, chain, dechain and realloc every live pbuf's ref equals the next pointers to it plus outside references, all pointers lead to live pbufs, and no chain is circular |
| `PbufChains.StepGood` | components/lwip/core/pbuf.c:661-883 | every operation keeps that |
| `PbufChains.FreeCounted` | components/lwip/core/pbuf.c:661-746 | pbuf_free gives up exactly the pbufs nobody refers to any more |
| `PbufTheorems.NoReferencesNoPbufs` | components/lwip/core/pbuf.c:661-746 | nothing leaks: with no outside reference nothing is alive |
| `PbufTheorems.SomeReference` | components/lwip/core/pbuf.c:661-746 | as long as a pbuf is alive somebody outside refers to one |
| `PbufChains.FreeUndoesBuilt` | components/lwip/core/pbuf.c:272-302 | pbuf_free of a fresh chain restores the state before its allocation |
| `PbufTheorems.DocumentedExamples` | components/lwip/core/pbuf.c:644-660 | the examples documented beside pbuf_free come out as documented |
| `PbufStore.Store.PbufAlloc` | components/lwip/core/pbuf.c:307-356 | one pbuf with one reference |
| `PbufStore.Store.PbufAllocPool` | components/lwip/core/pbuf.c:237-305 | NULL if and only if the free pbufs of the pool cannot hold the length, and then what was taken is given back; otherwise a chain of exactly that length, all full but the last |
| `PbufStore.Store.PbufRef` | components/lwip/core/pbuf.c:775-784 | one more reference |
| `PbufStore.Store.PbufFree` | components/lwip/core/pbuf.c:662-746 | the loop refines Free and returns the number of pbufs given up, counted in eight bits |
| `PbufStore.Store.PbufCat` | components/lwip/core/pbuf.c:797-819 | the reference moves from the caller to the last pbuf of the head chain |
| `PbufStore.Store.PbufChain` | components/lwip/core/pbuf.c:838-844 | a new reference for the link, the caller keeps its own |
| `PbufStore.Store.PbufDechain` | components/lwip/core/pbuf.c:855-883 | the tail loses the link's reference; exact condition: it is returned just when it survives if and only if the number of pbufs given up is 0 or no multiple of 256 |
| `PbufStore.LongTailExample` | components/lwip/core/pbuf.c:855-883 | taking the head off a fresh chain of 257 pbufs frees the other 256, and pbuf_free counts 0 |
| `PbufChains.ReallocKeepsPrefix` | components/lwip/core/pbuf.c:441-503 | pbuf_realloc keeps exactly the first new_len bytes of the chain, or all if there are fewer |
| `PbufTheorems.CatJoinsBytes` | components/lwip/core/pbuf.c:797-819 | after pbuf_cat the head chain holds its own bytes and then those of the tail |
| `PbufChains.FreeAbove` | components/lwip/core/pbuf.c:662-746 | pbuf_free touches nothing that comes before its argument in a chain |
| `PbufChains.ReallocGood` | components/lwip/core/pbuf.c:441-503 | shrinking keeps counts and chains right |
| `PbufStore.Store.PbufRealloc` | components/lwip/core/pbuf.c:441-503 | the walk, the cut and the freeing of the remainder refine one DoRealloc step |
| `PbufStore.Store.FindEnd` | components/lwip/core/pbuf.c:459-473 | the walk finds the pbuf in which the kept bytes end, and its share |
| `PbufStore.PbufCopyPartial` | components/lwip/core/pbuf.c:970-1005 | yields exactly the bytes offset..offset+len of the concatenation, or what there is of them |
| `DnsTheorems.CalledExactlyOnce` | components/lwip/core/dns.c:887-938 | from dns_init on, whatever happens: a caller accepted once with ERR_INPROGRESS is called back exactly once, at the latest after 7 ticks for each DNS server |
| `DnsTheorems.StartGood` | components/lwip/core/dns.c:369-410 | dns_init leaves tables that satisfy the invariant of all runs |
| `DnsTheorems.CalledInTime` | components/lwip/core/dns.c:975-1065 | whatever is queried, received or timed out meanwhile, everybody accepted so far has been called after 7*DNS_MAX_SERVERS ticks |
| `DnsTheorems.GivenUpExactly` | components/lwip/core/dns.c:1001-1030 | the bound is met: with all servers set and no response but such with bad flags a query leaves ASKING with the last of its ticks and not before |
| `DnsTheorems.NextServerAsked` | components/lwip/core/dns.c:1003-1026 | when the tries at one server are over, the first set server behind it is asked next, and without one the query ends |
| `DnsTheorems.AnswerExpires` | components/lwip/core/dns.c:1036-1043 | an answer is kept for exactly as many ticks as its TTL, as long as no query takes its entry |
| `DnsTheorems.NewHasAll` | components/lwip/core/dns.c:980-999 | a new query has 7 ticks for each server |
| `DnsTheorems.RunGood` | components/lwip/core/dns.c:887-1408 | over any run: accepted = waiting + called (as multisets), who waits waits for a query under way, and no two queries under way share a txid or a name |
| `DnsTheorems.EnqueueGood` | components/lwip/core/dns.c:1285-1408 | a query, joined, new or refused, keeps that |
| `DnsTheorems.CheckEntryGood` | components/lwip/core/dns.c:975-1052 | so does a tick of one entry, including server change and giving up |
| `DnsTheorems.RecvGood` | components/lwip/core/dns.c:1073-1273 | so does any packet |
| `DnsTheorems.AnsweredAtOnce` | components/lwip/core/dns.c:1073-1273 | a response with good flags is passed on at once to everybody who waits for its query and to nobody else, whichever entry has the txid; one with bad flags changes nothing |
| `DnsTheorems.RefusedIff` | components/lwip/core/dns.c:1294-1399 | a query is refused if and only if no waiting place is free, or a new entry is needed and there is no pcb, or none unused or completed at an age that is not 0 modulo 256 |
| `DnsTheorems.RefusedKeeps` | components/lwip/core/dns.c:1341-1399 | a refused query changes nothing, except that without a pcb the completed entry in its place is lost |
| `DnsTheorems.SlotIs` | components/lwip/core/dns.c:1324-1355 | a new query gets an unused entry if there is one, otherwise the one completed longest ago |
| `DnsTheorems.WaitsForItsName` | components/lwip/core/dns.c:1294-1401 | an accepted caller waits for a query under way for the name it asked for, and nobody else is moved |
| `DnsTheorems.WrapExample` | components/lwip/core/dns.c:1333-1351 | a run from dns_init, one name resolved and 255 queries for another, after which a query for a third is refused with a place to wait free and a completed entry in the table: the age is counted in eight bits |
| `DnsTheorems.RefusalNeedsQuery` | components/lwip/core/dns.c:1324-1401 | over any run from dns_init, a query refused with a place to wait and a pcb at hand means that the query accepted last is still under way, and that no entry is unused |
| `DnsTheorems.TickTakesOne` | components/lwip/core/dns.c:1001-1035 | each tick takes at least one from the measure, exactly one if all servers are set |
| `DnsTable.TxidIsUnique` | components/lwip/core/dns.c:945-963 | the number dns_create_txid settles on is used by no query under way |
| `DnsClient.Resolver.NotifyAll` | components/lwip/core/dns.c:887-938 | the loop calls exactly those who wait for the entry, in order, and frees their places |
| `DnsClient.Resolver.CreateTxid` | components/lwip/core/dns.c:945-963 | draws until a number is new |
| `DnsClient.Resolver.CheckOne` | components/lwip/core/dns.c:975-1052 | refines CheckEntry |
| `DnsClient.Resolver.CheckEntries` | components/lwip/core/dns.c:1058-1065 | refines one tick |
| `DnsClient.Resolver.Receive` | components/lwip/core/dns.c:1073-1273 | refines Recv |
| `DnsClient.Resolver.Query` | components/lwip/core/dns.c:1285-1408 | refines Enqueue, with the result code, and with a txid that is unique |
| `DnsClient.Resolver.FindSlot` | components/lwip/core/dns.c:1324-1355 | finds the first unused entry, or the one completed longest ago |
| `DnsTheorems.OldestDoneIs` | components/lwip/core/dns.c:1333-1340 | what the search for the oldest completed entry finds, and when it finds nothing |
| `DhcpTheorems.LeasesAreUnique` | components/lwip/apps/dhcpserver.c:811-884 | over any run, for every server address and configured pool not ending with .255: addresses strictly ascending (so none twice), no client twice, all in the pool, none the server's |
| `DhcpTheorems.InPoolIff` | components/lwip/apps/dhcpserver.c:848-857 | exact condition: leases stay in the pool over every run if and only if it does not end with .255 |
| `DhcpTheorems.OneTooMany` | components/lwip/apps/dhcpserver.c:848-857 | the client after the last gets the address behind a pool that ends with .255 |
| `DhcpTheorems.ChosenIsFree` | components/lwip/apps/dhcpserver.c:811-857 | a new client gets an address nobody has; it gets none if and only if all are leased |
| `DhcpTheorems.AnswerIsLeased` | components/lwip/apps/dhcpserver.c:801-917 | the address answered is the client's own lease |
| `DhcpTheorems.KnownKeepsAddress` | components/lwip/apps/dhcpserver.c:811-833 | a client with a lease is told that address as often as it asks, and loses it when it releases it |
| `DhcpTheorems.NextAddress` | components/lwip/apps/dhcpserver.c:817-884 | which address a new client gets: the lowest free one from the cursor on, or from the start of the pool, and where the cursor stands afterwards |
| `DhcpTheorems.RenewalMovesCursor` | components/lwip/apps/dhcpserver.c:822-839 | a client with a lease moves the cursor over exactly the leases before its own that it stands on |
| `DhcpTheorems.ReleaseEnds` | components/lwip/apps/dhcpserver.c:888-917 | a release ends exactly the client's own lease and is not answered, but for a NAK to a client without one while all are leased |
| `DhcpTheorems.OthersUntouched` | components/lwip/apps/dhcpserver.c:801-917 | no message touches the lease of another client |
| `DhcpTheorems.HandleGood` | components/lwip/apps/dhcpserver.c:801-917 | every message, new, known or release, keeps the list sorted, distinct and in the pool |
| `DhcpTheorems.TimerGood` | components/lwip/apps/dhcpserver.c:1224-1253 | so does the lease timer with its removal of surplus stations |
| `DhcpTheorems.LeaseLasts` | components/lwip/apps/dhcpserver.c:1224-1248 | a lease that is not renewed lasts exactly as many ticks as it was given |
| `DhcpTheorems.RawOrder` | components/lwip/apps/dhcpserver.c:200-236 | network-order comparison on a little-endian machine orders addresses of one /24 correctly |
| `DhcpTheorems.PoolIs` | components/lwip/apps/dhcpserver.c:1063-1106 | exact: a configured pool is kept if and only if it is enabled, in the server's /24, without its address and not too large; otherwise it is 100 addresses right behind or right before the server's |
| `DhcpTheorems.DefaultPoolServes` | components/lwip/apps/dhcpserver.c:801-917 | from dhcps_start with such a pool the first 100 clients all get an address |
| `DhcpTheorems.EveryoneServed` | components/lwip/apps/dhcpserver.c:801-917 | from any good state as many new clients as there are addresses free all get one |
| `DhcpTheorems.PollSetIsSound` | components/lwip/apps/dhcpserver.c:1063-1106 | the pool set up lies in the server's /24, without its address, and spans at most DHCPS_MAX_LEASE |
| `DhcpServer.NodeInsertToList` | components/lwip/apps/dhcpserver.c:200-236 | the node is put in at one place and nothing else moves |
| `DhcpServer.Server.FindClient` | components/lwip/apps/dhcpserver.c:811-846 | the scan finds the client's node or the first unused address |
| `DhcpServer.Server.ParseMsg` | components/lwip/apps/dhcpserver.c:801-928 | refines Handle, the mutated globals included |
| `DhcpServer.Server.CoarseTmr` | components/lwip/apps/dhcpserver.c:1224-1253 | refines CoarseTimer: timers count down, expired leases go, then surplus ones |
| `DhcpServer.Server.KillOldestDhcpsPool` | components/lwip/apps/dhcpserver.c:1188-1216 | one lease with the least time left among all but the first goes |
| `DhcpTheorems.RemovesOldestIff` | components/lwip/apps/dhcpserver.c:1188-1252 | exact condition: the lease removed has the least time left of all if and only if some lease behind the head has no more left than the head |
| `DhcpTheorems.YoungerRemovedExample` | components/lwip/apps/dhcpserver.c:1188-1252 | for every pool and lease time: of two clients that come a second apart the second loses its lease, though the first one's ends sooner |
| `DhcpServer.Server.SearchIpOnMac` | components/lwip/apps/dhcpserver.c:1262-1279 | found if and only if the client has a lease, and then its address |
| `TimerTheorems.FiresLateBy` | components/lwip/core/timers.c:539-593 | over every run, whatever mailbox is used and whatever is added and cancelled meanwhile: a timeout fires after its delay by exactly what LwipTimOutLim added and what time went by uncounted since it was registered, and early if and only if that is negative |
| `TimerTheorems.NeverEarly` | components/lwip/core/timers.c:539-593 | with a mailbox that never reports more time than passed and never times out too soon, no timeout fires before its delay has elapsed |
| `TimerTheorems.StepGoodIff` | components/lwip/core/timers.c:539-593 | exact condition: a step leaves every timer in time if and only if each pending one can bear the time that the step counts too much |
| `TimerTheorems.TightStepIff` | components/lwip/core/timers.c:548-591 | exact condition: with timers that have no time to spare, a step leaves them in time if and only if what it counts has passed, and an expired wait lasted as long as the first delay |
| `TimerTheorems.PortEarliness` | components/lwip/port/freertos/sys_arch.c:268-332 | over every run with the mailbox of this port, on the clock of sys_now: a timeout is early by at most one millisecond for each message fetched before the next tick since it was registered, and nine for each wait that expired too soon |
| `TimerTheorems.PortHonest` | components/lwip/port/freertos/sys_arch.c:290-303 | exact condition: that mailbox counts too much if and only if a message comes before the next tick while the first delay is not over, or a wait for part of a tick expires before it |
| `TimerTheorems.PortCountsAll` | components/lwip/port/freertos/sys_arch.c:292-301 | a message that takes at least one tick counts for exactly the time it took, up to the first delay |
| `TimerTheorems.ShortDelayExample` | components/lwip/port/freertos/sys_arch.c:291 | any timeout of less than 10 ms on an empty mailbox fires at once |
| `TimerTheorems.ManyMessagesExample` | components/lwip/port/freertos/sys_arch.c:295-297 | for every n: n messages within one tick run a timer of n milliseconds down |
| `TimerList.MboxFetch` | components/lwip/port/freertos/sys_arch.c:268-332 | the time reported, through the wrapping tick counter; never SYS_ARCH_TIMEOUT for a message |
| `Timers.StepRefines` | components/lwip/core/timers.c:343-593 | on deadlines every step of the delta list is a sorted insertion, a removal, or one shift of all of them |
| `Timers.InsertRefines` | components/lwip/core/timers.c:371-409 | sys_timeout is stable insertion by absolute deadline and moves no other deadline |
| `Timers.RemoveRefines` | components/lwip/core/timers.c:420-446 | sys_untimeout removes the first match and moves no other deadline |
| `Timers.DeadlinesSorted` | components/lwip/core/timers.c:371-409 | the delta list always stands for sorted deadlines |
| `TimerTheorems.ExactlyOnTime` | components/lwip/core/timers.c:539-593 | if every moment is counted once, every timeout fires exactly when its delay has elapsed |
| `TimerTheorems.RunGood` | components/lwip/core/timers.c:539-593 | every run with an honest mailbox keeps: no entry is due earlier than asked for |
| `TimerList.TimeoutList.SysTimeout` | components/lwip/core/timers.c:343-409 | the relinking loop refines Insert on the list, in 32 bits |
| `TimerList.TimeoutList.SysUntimeout` | components/lwip/core/timers.c:420-446 | the unlinking loop refines Remove |
| `TimerList.TimeoutList.FetchRound` | components/lwip/core/timers.c:539-593 | one round of the mailbox loop, the call of sys_arch_mbox_fetch included, refines a step that the port allows: a message shortens the first delta by what is reported, expiry runs its handler |
| `MemPool.MempSanity` | components/lwip/core/memp.c:88-103 | terminates on every list whose links lead to elements and returns 0 exactly when it is circular; what elements in use hold does not matter |
| `MemPool.Pigeonhole` | components/lwip/core/memp.c:88-103 | a list as long as the pool ends or meets an element twice |
| `MemPool.Meeting` | components/lwip/core/memp.c:88-103 | the hare meets the tortoise, or the end, within a bounded number of rounds |
| `MemPool.FreePlusLive` | components/lwip/core/memp.c:204-225 | free plus live elements are always desc->num |
| `MemPool.Pool.constructor` | components/lwip/core/memp.c:204-225 | memp_init_pool threads all elements on an acyclic list |
| `MemPool.Pool.Malloc` | components/lwip/core/memp.c:259-289 | NULL exactly when all elements are live; otherwise a new one |
| `MemPool.Pool.Free` | components/lwip/core/memp.c:345-377 | the element is free again, the list stays acyclic, and the sanity check passes |
| `MemPool.StoresKeepList` | components/lwip/include/lwip/lwip/priv/memp_priv.h:77-80 | whatever the user of an element stores where its link was, the free list stays whole and acyclic |
| `MemPool.Pool.Store` | components/lwip/include/lwip/lwip/priv/memp_priv.h:77-80 | a store into a live element keeps the pool valid |
| `Upload.UploadIsExact` | main/cgiappfs.c:89-169 | for every body, flash content and split: the file begins with the body, every page is written once into flash erased in this upload, and the rename is the one last call |
| `Upload.ChunkingIsImmaterial` | main/cgiappfs.c:89-169 | the calls to appfs do not depend on how the body is split |
| `Upload.FeedTwo` | main/cgiappfs.c:89-169 | two buffers have the effect of their concatenation, from any state |
| `Upload.UploadLog` | main/cgiappfs.c:89-169 | exactly which calls a body leads to, and that the upload ends in FLST_DONE |
| `Upload.RenamedOnce` | main/cgiappfs.c:146-152 | rename is the last call and occurs once |
| `Upload.EmptyBody` | main/cgiappfs.c:86-89 | an empty body creates no file |
| `Upload.UploadCgi.CgiUploadFile` | main/cgiappfs.c:66-186 | the while loop over one buffer terminates and refines Feed; the reply follows the state |
| `Upload.UploadCgi.WriteSome` | main/cgiappfs.c:108-161 | one turn of FLST_WRITE on the page buffer |
| `Upload.UploadCgi.FlushPage` | main/cgiappfs.c:116-161 | erase where a stretch begins, write the page, advance, rename after the last |
| `TcpReceiver.InsertSame` | components/lwip/core/tcp_in.c:1514-1538 | a segment with a queued one's sequence number: the longer wins |
| `TcpReceiver.InsertBefore` | components/lwip/core/tcp_in.c:1540-1573 | insertion at the head or between two queued segments |
| `TcpReceiver.InsertLast` | components/lwip/core/tcp_in.c:1578-1611 | appending behind the last, which may carry a FIN, with both trims |
| `TcpReceiver.Pcb.AcceptInSequence` | components/lwip/core/tcp_in.c:1330-1483 | refines Deliver on the whole pcb |
| `TcpReceiver.Pcb.AcceptOutOfOrder` | components/lwip/core/tcp_in.c:1492-1615 | an immediate ACK, then Enqueue |
| `TcpSender.AllocSegment` | components/lwip/core/tcp_out.c:545-612 | pbufs and tcp_seg of a new segment, or nothing when memory runs out |
| `TcpSender.Pcb.Segment` | components/lwip/core/tcp_out.c:421-742 | prepare and commit, or leave every field but the flag as it was |
| `TcpSender.Pcb.Prepare` | components/lwip/core/tcp_out.c:421-640 | the recorded plan is PlanWrite, and it is refused exactly when memory or the queue limit says so |
| `TcpSender.Pcb.SendFinFlag` | components/lwip/core/tcp_out.c:140-165 | refines SendFin: on the last segment if it has no FIN, else in its own |
| `TcpSender.Pcb.MayOutput` | components/lwip/core/tcp_out.c:1050-1053 | decides exactly MaySend |
| `TcpSender.Pcb.HeadFits` | components/lwip/core/tcp_out.c:1039-1040 | the unsigned 32-bit window test decides exactly InWindow |
| `TcpSender.Pcb.SendFirst` | components/lwip/core/tcp_out.c:1073-1118 | one turn of the loop computes SendHead, snd_nxt in wrapped arithmetic included |
| `TcpSender.Pcb.ProcessAck` | components/lwip/core/tcp_in.c:1061-1196 | computes Ack and what the sent callback is told |
| `TcpSender.Pcb.NewAck` | components/lwip/core/tcp_in.c:1061-1139 | the part of an acknowledgment that concerns unacked |
| `TcpSender.Pcb.AckUnsent` | components/lwip/core/tcp_in.c:1164-1196 | the part that concerns unsent, old acknowledgments included |
| `TcpSender.Pcb.MoveToUnsent` | components/lwip/core/tcp_out.c:1371-1383 | unacked is put in front of unsent |
| `TcpSender.Pcb.TcpRexmitFast` | components/lwip/core/tcp_out.c:1451-1482 | retransmits once until an acknowledgment ends the recovery |
| `TcpSender.InsertInOrder` | components/lwip/core/tcp_out.c:1415-1424 | the walk with wrapped comparison computes InsertSorted |
| `HeapTheorems.TakeServes` | components/lwip/core/mem.c:571-611 | a taken block is new, aligned, large enough and apart from all live ones |
| `HeapTheorems.EmptyIsHole` | components/lwip/core/mem.c:297-325 | with nothing in use the heap is the hole of mem_init |
| `HeapLayout.FreeLive` | components/lwip/core/mem.c:334-379 | the live blocks after mem_free are the others |
| `HeapLayout.TakeLive` | components/lwip/core/mem.c:571-611 | the live blocks after mem_malloc are those before and the new one |
| `Heap.MemHeap.MergeHeaders` | components/lwip/core/mem.c:277-278 | two writes turn two free neighbours into one block |
| `Heap.MemHeap.PlugForward` | components/lwip/core/mem.c:268-279 | merges with a free successor, lfree adjusted |
| `Heap.MemHeap.PlugBackward` | components/lwip/core/mem.c:281-290 | merges with a free predecessor, lfree adjusted |
| `Heap.MemHeap.SplitOff` | components/lwip/core/mem.c:587-599 | the header writes cut a block, or a block and the free one behind it, in two |
| `Heap.MemHeap.ShrinkBlock` | components/lwip/core/mem.c:441-499 | the three cases of shrinking, lfree and statistic included |
| `Heap.MemHeap.TakeBlock` | components/lwip/core/mem.c:571-634 | splits if a block of MIN_SIZE remains, takes all otherwise; lfree and statistic exact |
| `Heap.MemHeap.FreeBlock` | components/lwip/core/mem.c:352-379 | marks, counts, lowers lfree and coalesces |
| `SelectTheorems.RunKeeps` | components/lwip/api/sockets.c:1673-1935 | the protocol invariant holds after every run of every interleaving |
| `SelectTheorems.EnterKeeps` | components/lwip/api/sockets.c:1673-1686 | so does going on the list, which makes callbacks start again |
| `SelectTheorems.LeaveKeeps` | components/lwip/api/sockets.c:1758-1772 | and leaving it |
| `SelectTheorems.PostKeeps` | components/lwip/api/sockets.c:1860-1926 | and a new event, whose callback now has all waiting nodes before it |
| `SelectTheorems.SecondKeeps` | components/lwip/api/sockets.c:1711-1715 | and the second scan: what it has found not ready is covered by callbacks |
| `SelectSockets.Sockets.Unlink` | components/lwip/api/sockets.c:1760-1769 | the neighbours, or the head of the list, skip the node |
| `SelectSockets.Sockets.StartOver` | components/lwip/api/sockets.c:1895-1926 | begins at the head of the list |
| `SelectSockets.Sockets.constructor` | components/lwip/api/sockets.c:546-647 | an empty list and nobody waiting is an initial state of the protocol |
| `Checksum.FoldAndSwap` | components/lwip/core/inet_chksum.c:160-176 | folding and the swap for odd addresses give the flat sum |
| `Checksum.AddPart` | components/lwip/core/inet_chksum.c:401-443 | the loop adds exactly the first chksum_len bytes to the running sum |
| `Checksum.AddChain` | components/lwip/core/inet_chksum.c:262-285 | the loop with its odd-length swaps adds the sum of the concatenation |
| `PbufChains.DechainGood` | components/lwip/core/pbuf.c:855-883 | cutting a chain keeps counts and chains right |
| `PbufStore.Store.LastOf` | components/lwip/core/pbuf.c:797-811 | the walk finds the last pbuf of the chain |
| `TimerList.Link` | components/lwip/core/timers.c:387-408 | the relinking loop computes Insert |
| `TimerList.Unlink` | components/lwip/core/timers.c:420-446 | the unlinking loop computes Remove |
| `TimerTheorems.StepGood` | components/lwip/core/timers.c:539-593 | each honest step keeps: no entry is due earlier than asked for |
| `DnsClient.Resolver.constructor` | components/lwip/core/dns.c:370-407 | empty tables |
| `DnsClient.Resolver.JoinDuplicate` | components/lwip/core/dns.c:1294-1319 | a caller joins a query for the same name exactly if there is one and a place to wait |
| `DnsClient.Resolver.UseEntry` | components/lwip/core/dns.c:1384-1405 | the entry is filled and the query under way |
| `DnsClient.Resolver.SkipServers` | components/lwip/core/dns.c:1004-1006 | stops before the next server that is set, or at the last |
| `DnsTheorems.CompleteGood` | components/lwip/core/dns.c:887-938 | an entry leaves ASKING only after its callers were called |
| `DhcpServer.Server.constructor` | components/lwip/apps/dhcpserver.c:1115-1144 | an empty list for the pool set up |
| `DhcpTheorems.RunGood` | components/lwip/apps/dhcpserver.c:801-1253 | any run of messages and timer ticks keeps the list good |
| `Upload.UploadCgi.CopyToPage` | main/cgiappfs.c:108-121 | bytes are copied behind those the page buffer holds |
| `Upload.UploadCgi.constructor` | main/cgiappfs.c:76-87 | calloc: the start state with an empty page |

## Left out

- TcpReceiver.Pcb.TcpReceive: asks for a segment less than half the sequence space away, for less than 2^30 bytes received since a segment last left, and for what the source asserts (an offset to trim below 0x7fff, no more consumed than rcv_wnd).
- TcpReceiver.Pcb.TcpRecved: acknowledging more than 0xffff in all, which the source asserts against, is excluded, and so is tcp_recved(0) at rcv_wnd 0, which after a FIN resets rcv_wnd to its maximum.
- ReassemblyRuns.RecvedGood: bytes acknowledged were delivered; the extra byte for a FIN that the source allows is not modelled, nor is the reset of rcv_wnd that goes with it.
- ReassemblyRuns.ReassemblyIsExact: segments that overrun the window edge untrimmed are excluded, by the exact condition above; segments with SYN or RST are not modelled.
- SendQueueRuns.SendQueuesTile: fast retransmit and the output after it are one step, under the exact condition above; the sizes are stated for a first window of at least 2 bytes, SizesWithinMss has the exact condition.
- TcpSender.Pcb.TcpWrite: asks for what the source asserts of the last unsent segment; the send buffer is below 0xffff and TCP_SND_QUEUELEN below 256 (pbuf_clen returns eight bits); arg == NULL and the 16-bit width of seg->len are not modelled.
- TcpSender.Pcb.TcpClose: the branch that resets a connection with unread data is not modelled.
- HeapTheorems.MallocServes: requests above 0xFFFC are excluded, by the exact condition above.
- Heap.MemHeap.MemFree: the pointer is one that mem_malloc returned or lies outside the heap; the source asserts the rest.
- Heap.MemHeap.MemTrim: struct mem records are kept per offset, so the bytes that a moved header shares with the dead one are not modelled.
- SelectTheorems.NoLostWakeup: sockets stay open while they are selected on; select_cb_ctr does not wrap; data left from a read count as no event, SleepsWhileReady says what that leaves out.
- SelectTheorems.WaitingIsExact: the width of select_waiting is not modelled.
- PbufTheorems.CountsAreExact: the 16-bit width of ref is not modelled.
- PbufStore.Store.PbufAlloc: payload pointers, alignment and tot_len are not modelled; a pbuf is its bytes.
- PbufStore.Store.PbufAllocPool: the same; the pbufs that the pool would hand out are a parameter.
- DnsTheorems.RecvGood: the parsing of a packet is not modelled, it is a verdict and a TTL; the same holds for AnsweredAtOnce and DnsClient.Resolver.Receive.
- DnsTheorems.CalledExactlyOnce: the found callbacks do not call into the resolver again; names, source ports and packets are abstract (a response is a verdict and a TTL).
- DhcpServer.Server.ParseMsg: whether parse_options reports a release is a parameter; allocation of a node always succeeds, as the source takes for granted.
- DhcpServer.Server.CoarseTmr: a lease is removed only with two left; with MAX_STATION_NUM below 2 the source would dereference NULL.
- Checksum.InetChksumPseudoPartial: the assertion "delete me" of the source, that less than 0x7fff bytes are left after each pbuf, is not modelled.
- EndToEnd.LoopDelivers: a FIN that overruns the window edge untrimmed is excluded, by the exact condition above; acknowledgments are any.
- DhcpTheorems.LeasesAreUnique: server addresses below 0.0.1.0 are excluded.
- TimerTheorems.FiresLateBy: sys_timeout and sys_untimeout are called from tcpip_thread only, and the pool of entries does not run out.
- TimerTheorems.PortEarliness: time within a tick is not represented, the clock is sys_now; xQueueReceive is taken to wait for as many ticks as it is told; the mailbox exists and is alive.
- Upload.UploadIsExact: every appfs call succeeds, the file has a name, and flash is an array of bytes; the error states are not modelled.
- The TCP handshake, connection states other than "FIN received" and "FIN sent", resets, keep-alive, persist and RTT estimation.
- Congestion control: min(snd_wnd, cwnd) is a parameter of each output.
- The chains of pbufs inside a segment: its payload is a byte sequence, on both sides of TCP.
- PSH and ACK flags, refused data, and the choice between delayed and immediate ACKs.
- lwip_selscan's result sets, the last scan of lwip_select, and the semaphore beyond "signalled or not".
- PbufStore.Store.PbufRealloc: tot_len of the chain is a parameter, and the mem_trim of a PBUF_RAM is not modelled here.
- pbuf_header, pbuf_take and their like; custom pbufs; chains that share tails count references only.
- Checksum on copy and the IPv6 sums, which repeat the IPv4 ones with a longer pseudo header.
- mem_calloc, MEM_USE_POOLS, LWIP_ALLOW_MEM_FREE_FROM_OTHER_CONTEXT, overflow checks of memp.
- The cache lookup, local host list, server configuration and IPv6 fallback of the resolver.
- dhcps option formatting and the sending of replies.
- NO_SYS timers, the cyclic timers themselves, light-sleep bookkeeping.
- tcp_new_port, source port selection, sockets API calls, netconn, PPP, the GUI, charging, Wi-Fi setup and the other HTTP handlers.
