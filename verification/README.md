# Dafny model of the pkg4go network core

The repository holds a kernel-bypass network stack: the user-space driver of a
network card (`exanic/include/exanic`), a socket layer on top of it
(`exanic/include/exasock`), and Go code that reassembles byte streams (`core`).
This project models the parts whose correctness depends on more than one
function: rings shared with hardware, rings shared with other threads, protocols
of several racing threads, and the checksum code. It proves what each of them
keeps in every run.

| file | models |
|---|---|
| `words.dfy`, `byte_ring.dfy` | fixed-width arithmetic; byte rings addressed by unbounded stream positions |
| `reassembly.dfy`, `segment_array.dfy`, `tcp_receive.dfy` | the TCP receive buffer: the out-of-order list on unbounded ranges, the six-slot array with 32-bit sequence numbers that refines it, and the buffer itself |
| `tcp_transmit.dfy` | the TCP transmit ring |
| `tcp_state.dfy` | the TCP connection state under races |
| `tx_layout.dfy`, `fifo_tx.dfy` | the transmit FIFO of the card: layout with unbounded counters, and the object with 16-bit counters that refines it |
| `rx_ring.dfy`, `fifo_rx.dfy` | the receive ring of the card, which hardware overwrites while software reads |
| `poll_body.dfy`, `in_place.dfy` | the loop that copies a packet out of that ring and sums it; the loop at work while the card writes |
| `rwlock.dfy`, `reclaim.dfy` | the ticket lock; hash-chain removal with its grace period |
| `udp_queue.dfy` | the datagram queue of a UDP socket |
| `checksum.dfy`, `checksum_iov.dfy`, `headers.dfy` | the Internet checksum in three forms, and the headers that carry it |
| `stream_cache.dfy`, `hw_time.dfy` | the stream buffer; hardware time |

Conventions. Code that updates fields or buffers is a class or a method proved
against functions on values; races are step relations in which every shared
access is a step, run in any order. Counters that wrap in the code wrap in the
model, and stand beside unbounded ones that the proofs show they agree with.
Histories (all bytes given, the datagrams queued) are ghost fields. Unbounded
positions are ordinary fields where the card's or the kernel's steps compute with
them, and decide nothing of what the code does; only unlinking takes the
predecessor from the chain kept as a sequence, which `Reclaim.Find` shows to be
the one the pointers lead to. Loops that spin on hardware or on another thread
take a finite schedule of what they will see, and say so in their result when it
ends first.
Parameters stand for the hardware's chunks and reports, the kernel's turns,
packets from the network, register values and the clock.

Where the code does not do what its comments or its name promise, the model
follows the code, and a counterexample and the exact condition are proved:

* Aborting a received segment: entries that meet the region survive if more than
  one does, and their overwritten bytes are acknowledged later
  (`Reassembly.AbortSafeIff`, `AbortHarmlessIff`, `AbortCounterexample`).
* Preparing an oversized transmit chunk starts a new lap before it is rejected,
  and later chunks of legal size can then wait for feedback that nobody asked
  for (`TxLayout.StuckIff`, `AfterRejection`, `Wedged`).
* An empty datagram in front of the wrap marker of the UDP queue reads as the
  marker itself, and all that is queued up to the marker is lost
  (`UdpQueue.FifoIff`, `EmptyDatagramLost`).
* The copy loop does not look at the end-of-frame flag between its phases
  (`PollBody.StaysInFrame`, `CrossesFrames`, `InPlace.ShortWritten`).
* The grace period ends early when more than 2^31 removals are ahead of the last
  acknowledgement (`Reclaim.EarlyIff`, `EarlyReturn`).
* An acknowledgement 2^31 or more behind moves the send window back
  (`TcpState.StaleAckIff`, `StaleAckMovesBack`, `StaleReached`).
* An acknowledgement of more than was sent is stored, and passes for one of our
  FIN (`TcpState.FinAckedCause`, `ExcessReached`).
* A damaged segment without data can throw a queued range away
  (`Reassembly.EmptyAbortIff`).
* A queued range that the kernel has overtaken in part stays unacknowledged through
  commits beyond it, until one is in order (`Reassembly.AcknowledgesAll`).
* The test whether the lock is held for writing says yes while somebody waits and
  nobody holds it (`RwLock.WriteLockedIff`, `WaitingLooksWritten`).
* A FIN that arrives before the bytes in front of it is forgotten when its call
  returns; the peer has to send it again (`TcpState.EarlyFinForgotten`).
* Asking the transmit ring for an empty range on a lap boundary yields a whole
  buffer (`TcpTransmit.Transmitter.Get`).
* The recheck of a chunk tells whether a newer chunk has taken its slot, not
  whether one is being written there right now (`RxRing.IntactIff`, `TornPasses`).
* Reading the two halves of the clock is right for reads up to 2^31 ticks apart,
  and for no longer span (`HwTime.JoinIff`).

## Model

| member | source | states |
|---|---|---|
| Words.SeqCompareExact | exanic/include/exasock/tcp_buffer.h:6-10 | The signed 32-bit comparison orders sequence numbers like the unbounded positions behind them while these are within half the number space |
| ByteRing.SlotOfSeq | exanic/include/exasock/tcp_buffer.h:94-109 | Masking a wrapped sequence number finds the same cell as reducing the unbounded position |
| ByteRing.SplitRegion | exanic/include/exasock/tcp_buffer.h:94-109 | Where a claimed region crosses the end of the buffer, so that the two pieces handed out are exactly the region |
| ByteRing.WindowSlices | exanic/include/exasock/tcp_buffer.h:308-337 | Consecutive positions are one slice of the ring, or the slice to its end followed by one from its start |
| Reassembly.CommitSound | exanic/include/exasock/tcp_buffer.h:114-272 | After a commit, nothing counts as received that was not received before or just now |
| Reassembly.CommitExact | exanic/include/exasock/tcp_buffer.h:114-272 | Wherever the kernel has moved the acknowledged data, a commit makes known exactly the new bytes, less the one range that a full list throws away (both directions, for every byte from the acknowledged data on) |
| Reassembly.PruneExact | exanic/include/exasock/tcp_buffer.h:136-151 | Dropping what was acknowledged elsewhere forgets no byte from there on, whatever the list (both directions) |
| Reassembly.InsertExact | exanic/include/exasock/tcp_buffer.h:196-247 | After an insertion exactly the old bytes and the new ones are queued, less the range thrown away |
| Reassembly.LostIff | exanic/include/exasock/tcp_buffer.h:202-220 | A range is thrown away if and only if six are queued and the new one touches none of them; it is the highest of the seven |
| Reassembly.CommitCanonical | exanic/include/exasock/tcp_buffer.h:114-272 | The list stays sorted, disjoint, with gaps, non-empty entries and at most six of them, beyond the acknowledged data |
| Reassembly.CommitOrdered | exanic/include/exasock/tcp_buffer.h:114-272 | Commits keep a list sorted also after an abort has left its last entry twice: copies stay together, nothing falls 2^30 behind the acknowledged data |
| Reassembly.InsertCanonical | exanic/include/exasock/tcp_buffer.h:196-247 | Merging a range into the list keeps it sorted and disjoint, whatever it touches |
| Reassembly.AcknowledgesAll | exanic/include/exasock/tcp_buffer.h:153-190 | No commit acknowledges a byte that is not known, and one leaves a queued range at the acknowledged position if and only if it is out of order and the kernel had stopped inside the first queued range; so one that fills the gap acknowledges all that touches, as the assertion in the code demands |
| Reassembly.CommitGrows | exanic/include/exasock/tcp_buffer.h:114-272 | The acknowledged position never moves back |
| Reassembly.InsertDrops | exanic/include/exasock/tcp_buffer.h:202-220 | The range that a full list drops really is forgotten, so it will be accepted again |
| Reassembly.AbortSafe | exanic/include/exasock/tcp_buffer.h:274-306 | If the aborted region meets at most one queued range, what is left avoids the region and comes from the old list |
| Reassembly.AbortExact | exanic/include/exasock/tcp_buffer.h:274-306 | If the aborted region meets at most one queued range, queued afterwards are exactly the bytes of the ranges that did not meet it |
| Reassembly.AbortOrdered | exanic/include/exasock/tcp_buffer.h:282-301 | Removing any one entry, with the last then held twice, keeps such a list sorted |
| Reassembly.AbortSafeIff | exanic/include/exasock/tcp_buffer.h:282-301 | On a sorted list the removal loop cleans the region if and only if at most one queued range meets it |
| Reassembly.AbortHarmlessIff | exanic/include/exasock/tcp_buffer.h:282-301 | No in-order commit, whatever it is, acknowledges an aborted byte that it did not bring, if and only if at most one queued range met the aborted bytes |
| Reassembly.EmptyAbortIff | exanic/include/exasock/tcp_buffer.h:282-301 | An abort of no bytes, as for a damaged segment without data, throws a queued range away if and only if its position lies strictly inside one |
| Reassembly.AbortCounterexample | exanic/include/exasock/tcp_buffer.h:282-301 | Two neighbouring ranges inside the region: the second is skipped and survives with overwritten bytes |
| SegmentArray.PruneSegments | exanic/include/exasock/tcp_buffer.h:136-151 | The array form drops exactly the entries that acknowledged data has passed and cuts the one it has reached, on wrapped sequence numbers; `Reassembly.PruneExact` says what that means for the bytes |
| SegmentArray.AbsorbSegments | exanic/include/exasock/tcp_buffer.h:157-178 | The array form takes in exactly the ranges that extended data reaches |
| SegmentArray.InsertSegment | exanic/include/exasock/tcp_buffer.h:196-247 | The in-place insertion, merge and shift leave the array that represents the merged list |
| SegmentArray.AbortSegments | exanic/include/exasock/tcp_buffer.h:282-301 | The in-place removal loop leaves, slot by slot, what the loop on ranges leaves, duplicates included |
| TcpReceive.FillSound | exanic/include/exasock/tcp_buffer.h:52-112 | Writing into claimed space spoils no byte already received outside it, across the ring's end, whatever else is being filled |
| TcpReceive.CommitKeepsSound | exanic/include/exasock/tcp_buffer.h:114-272 | After a commit every known position carries the sender's byte |
| TcpReceive.CommitKeeps | exanic/include/exasock/tcp_buffer.h:114-272 | A commit keeps order, window and every known byte genuine, also while the kernel has claimed data before it that it has not acknowledged |
| TcpReceive.AbortKeepsSound | exanic/include/exasock/tcp_buffer.h:274-306 | After an abort that leaves nothing in the region, every known position still carries the sender's byte |
| TcpReceive.Receiver.constructor | exanic/include/exasock/tcp.h:260 | A new connection knows nothing and has handed out nothing |
| TcpReceive.Receiver.KernelAcks | exanic/include/exasock/tcp_buffer.h:249-258 | The kernel acknowledging what it claimed, before or after a range beyond it is claimed, keeps every known byte genuine |
| TcpReceive.Receiver.ProcSeqUpdate | exanic/include/exasock/tcp_buffer.h:12-26 | With the kernel claiming and acknowledging data under it, the processing position is taken if and only if it is beyond all the kernel has claimed by then, and the position replaced is returned; the kernel's claims are where the loop, stopping at the first unmoved one, leaves them |
| TcpReceive.Receiver.Alloc | exanic/include/exasock/tcp_buffer.h:52-112 | A claim is refused only for data that is acknowledged or claimed by the kernel, or beyond the window; a claim starts at the first new byte and its two pieces are the cells of the new range |
| TcpReceive.Receiver.Commit | exanic/include/exasock/tcp_buffer.h:114-272 | The buffer after a commit knows exactly what the range-level commit says, in 32-bit fields and the segment array; with a kernel claim unfinished the range is only queued and the processing position given back |
| TcpReceive.Receiver.Abort | exanic/include/exasock/tcp_buffer.h:274-306 | The claim is undone, down to the kernel's claim if there is one; the six slots hold what the removal loop leaves, and if at most one queued range was met the buffer is consistent and genuine |
| TcpReceive.Receiver.ReadBegin | exanic/include/exasock/tcp_buffer.h:308-337 | The two slices offered to the application are the sender's bytes from the read position to the acknowledged one |
| TcpReceive.Receiver.ReadEnd | exanic/include/exasock/tcp_buffer.h:339-352 | Consuming advances the read position only, and frees space without losing queued data |
| TcpReceive.Receiver.ReceiveSegment | exanic/include/exasock/exanic.c:1437-1502 | A segment, with or without data, goes through claim, fill and commit or abort; what is known afterwards is given exactly for intact, damaged, old and out-of-window segments, with the kernel at work during the claim and the copy |
| TcpReceive.Receiver.Run | exanic/include/exasock/tcp_buffer.h:52-352 | In every run of arrivals (reordered, repeated, overlapping, damaged), kernel claims and acknowledgements at any point, and reads, the bytes handed out are exactly the sender's, in order, and what is read, known and claimed is what the reference says |
| TcpReceive.ExecKnows | exanic/include/exasock/tcp_buffer.h:52-352 | In every run in which nothing is thrown away, with the kernel taking part, a byte is known if and only if an intact segment that fitted the window brought it or the kernel acknowledged it |
| TcpReceive.OnlyBrought | exanic/include/exasock/tcp_buffer.h:52-352 | From a fresh connection, whatever the kernel does, no byte is acknowledged that was not brought |
| TcpReceive.Complete | exanic/include/exasock/tcp_buffer.h:52-352 | From a fresh connection, for every k: the first k bytes are acknowledged if and only if each was brought by an intact segment in the window |
| TcpReceive.ReadGets | exanic/include/exasock/tcp_buffer.h:308-352 | So a read gets as many bytes as it asks for, or all up to the first that no segment has brought |
| TcpReceive.KernelBrings | exanic/include/exasock/tcp_buffer.h:249-258 | The kernel's claim and acknowledgement move the acknowledged data over the next n bytes if and only if they fit the window and leave no queued range 2^30 behind; nothing else changes |
| TcpTransmit.SameLap | exanic/include/exasock/tcp_buffer.h:473-474 | The lap test on 32-bit sequence numbers says whether a range crosses the end of the buffer, also where the sequence number wraps |
| TcpTransmit.HoldsMore | exanic/include/exasock/tcp_buffer.h:415-462 | Writing at the next positions keeps the last bytes of the stream in the ring, as many as fit |
| TcpTransmit.Transmitter.Write | exanic/include/exasock/tcp_buffer.h:415-462 | The stream grows by exactly the bytes after the skipped ones of the scattered buffers, however these are cut |
| TcpTransmit.Transmitter.Get | exanic/include/exasock/tcp_buffer.h:464-488 | The slices returned are the bytes of the stream asked for, if and only if the range is not an empty one on a lap boundary |
| TcpState.StepForward | exanic/include/exasock/tcp.h:293-334 | Every change of the state word, from any thread, is a transition of section 3.3.2 of RFC 9293 or a reset; no flag is lost, CLOSED is final, the acknowledged position never moves back |
| TcpState.StepInv | exanic/include/exasock/tcp.h:761-947 | Each single load, test and compare-and-swap of receive, shutdown and reset keeps the state word in step with what the packets under way have brought, whatever they acknowledge; a sequence number loaded before the acknowledged one is still right when they are compared |
| TcpState.NothingLost | exanic/include/exasock/tcp.h:808-947 | In every interleaving: once a shutdown has returned we are closed; once a call has returned whose packet, when it arrived, carried a FIN in order, the peer is; once one has returned whose packet acknowledged our FIN, it is acknowledged; and no close, FIN or acknowledgement is in the state that no caller or packet brought, unless some packet acknowledged more than was sent |
| TcpState.QuiescentExact | exanic/include/exasock/tcp.h:808-947 | With no call under way and no reset, we are closed if and only if a shutdown returned, the peer is if and only if a FIN arrived in order (if none came in order during its own call), and our FIN is acknowledged if and only if a packet acknowledged it (if none acknowledged more than was sent) |
| TcpState.LateFinCounts | exanic/include/exasock/tcp.h:848-860 | From every start: a FIN whose missing bytes come while its call is under way is accepted |
| TcpState.EarlyFinForgotten | exanic/include/exasock/tcp.h:848-860 | From every start: one whose missing bytes come after its call has returned is not, although it is then in order |
| TcpState.FinAckedCause | exanic/include/exasock/tcp.h:774-777 | The state says that our FIN is acknowledged only if a packet acknowledged it, or one acknowledged more than was sent |
| TcpState.ExcessReached | exanic/include/exasock/tcp.h:774-777 | From every start, and for every acknowledgement beyond what was sent: a run in which it takes FIN_WAIT_1 to FIN_WAIT_2 with the FIN unacknowledged |
| TcpState.RunForward | exanic/include/exasock/tcp.h:761-947 | Over whole runs the acknowledged position and the three facts only grow, and CLOSED is absorbing |
| TcpState.ResetEnds | exanic/include/exasock/tcp.h:327-334 | A run in which the connection is reset ends in CLOSED, whatever calls were under way |
| TcpState.AckLoopExact | exanic/include/exasock/tcp.h:774-777 | Within the window the compare-and-swap loop replaces only older acknowledgements, and a swap that succeeds has seen the value it expected |
| TcpState.StaleAckIff | exanic/include/exasock/tcp.h:774-777 | An old acknowledgement passes for a new one if and only if it is 2^31 or more behind, modulo 2^32 |
| TcpState.StaleAckMovesBack | exanic/include/exasock/tcp.h:774-777 | Two steps in which such an acknowledgement moves the acknowledged position back |
| TcpState.StaleReached | exanic/include/exasock/tcp.h:774-777 | Such a state is reached from every start, with every comparison on the way in range |
| TxLayout.FitsIsFree | exanic/include/exanic/fifo_tx.c:256-287 | The space offered lies in the buffer and meets no chunk that the card may still be reading |
| TxLayout.FitsIff | exanic/include/exanic/fifo_tx.c:256-287 | After every run the space is offered if and only if it lies in the buffer and meets no unacknowledged chunk, except that a lap just finished is not exceeded |
| TxLayout.PrepareAtOnce | exanic/include/exanic/fifo_tx.c:242-306 | What preparing does without waiting, in terms of the free space: ready, a new lap, too large beyond half the buffer less 512 bytes, or wait |
| TxLayout.PrepareInv | exanic/include/exanic/fifo_tx.c:242-306 | Preparing keeps the layout: unfinished chunks of this lap end before the offer, those of the last lap start after it, and no more are outstanding than the table holds |
| TxLayout.SendInv | exanic/include/exanic/fifo_tx.c:318-342 | Sending a chunk no larger than the offer keeps the layout |
| TxLayout.RunSafe | exanic/include/exanic/fifo_tx.c:207-342 | In every run of begin, end, abort and feedback, a prepared chunk is inside the buffer and disjoint from all unacknowledged ones |
| TxLayout.PrepareProgress | exanic/include/exanic/fifo_tx.c:226-306 | If nothing oversized was ever rejected, a preparation that waits has a requested feedback outstanding: it never waits for feedback nobody asked for |
| TxLayout.ArrivalFinishes | exanic/include/exanic/fifo_tx.c:226-306 | The arrival of the last requested feedback lets any chunk of permitted size be prepared |
| TxLayout.RunWaits | exanic/include/exanic/fifo_tx.c:226-306 | Both together after every run in which no chunk was rejected as too large |
| TxLayout.PermittedFit | exanic/include/exanic/fifo_tx.c:226-306 | No chunk of permitted size is ever rejected, whatever came before |
| TxLayout.RunProgress | exanic/include/exanic/fifo_tx.c:226-306 | In every run that asks for chunks of permitted size only, preparing another is never refused, waits only for feedback that was requested, and is ready when the last of it arrives |
| TxLayout.ReportCounts | exanic/include/exanic/fifo_tx.c:207-306 | After every run of permitted chunks, feedback that arrives between two calls makes the next one ready by the first read of the slot |
| TxLayout.RunTight | exanic/include/exanic/fifo_tx.c:292-305 | After every run the two statements above apply; and if chunks are sent as long as prepared, feedback is requested no more than every 512 bytes or half queue, and once a lap |
| TxLayout.StuckIff | exanic/include/exanic/fifo_tx.c:249-287 | With no feedback outstanding, waiting never ends if and only if the queue is full or the chunk does not fit before the last acknowledged one |
| TxLayout.AfterRejection | exanic/include/exanic/fifo_tx.c:266-282 | After a rejected chunk has started a new lap, a legal chunk waits forever if and only if it is larger than the end of the last requested chunk |
| TxLayout.Wedged | exanic/include/exanic/fifo_tx.c:266-282 | A run that ends in a rejected request, after which a chunk of permitted size waits for feedback that nobody requested, whatever is polled |
| FifoTx.RoundDown | exanic/include/exanic/fifo_tx.c:29-37 | For every 32-bit argument the bit trick gives a power of two, and for a non-zero one the largest that is not above it |
| FifoTx.QueueLength | exanic/include/exanic/fifo_tx.c:158-161 | Every buffer size yields a table length that divides the 16-bit number space |
| FifoTx.TxFifo.constructor | exanic/include/exanic/fifo_tx.c:110-190 | A fresh FIFO is the initial layout |
| FifoTx.TxFifo.UpdateFeedback | exanic/include/exanic/fifo_tx.c:207-224 | A report of a requested chunk is always accepted, and the 16-bit fields agree with the unbounded state |
| FifoTx.TxFifo.OffsetOf | exanic/include/exanic/fifo_tx.c:271-273 | The table entry found by masking is the end of that very chunk, although entries are reused |
| FifoTx.TxFifo.PrepareChunk | exanic/include/exanic/fifo_tx.c:242-306 | The code on 16-bit counters decides and changes exactly what the layout model does |
| FifoTx.TxFifo.SendChunk | exanic/include/exanic/fifo_tx.c:318-342 | Sending records the chunk and its request without overwriting an entry still needed |
| FifoTx.TxFifo.BeginTransmit | exanic/include/exanic/fifo_tx.c:404-429 | Succeeds if and only if no chunk was pending and one is now; a successful begin offers free space, and the session moves as in the layout model |
| FifoTx.TxFifo.EndTransmit | exanic/include/exanic/fifo_tx.c:431-449 | Ending sends what was begun, shorter if asked |
| FifoTx.TxFifo.AbortTransmit | exanic/include/exanic/fifo_tx.c:545-550 | Aborting gives the space back and leaves the FIFO usable |
| RxRing.SameGeneration | exanic/include/exanic/fifo_rx.c:401-426 | Within 255 laps the 8-bit generation tells apart: this chunk, not written yet, overwritten |
| RxRing.LapOf | exanic/include/exanic/fifo_rx.c:264-281 | Scanning slots downwards, the generation changes exactly at the write position |
| RxRing.IntactIff | exanic/include/exanic/fifo_rx.h:313-320 | While a slot shows a chunk's generation, the chunk is unharmed whatever the card is writing, if and only if the card has not come round to the slot |
| RxRing.TornPasses | exanic/include/exanic/fifo_rx.h:313-320 | The failing case: the card is overwriting the slot, which still shows the old generation |
| FifoRx.Reader.Peek | exanic/include/exanic/fifo_rx.c:340-342 | One read of the info word decides whether the next chunk is there, is missing or has been overwritten, with the card writing at any time |
| FifoRx.StatusParts | exanic/include/exanic/fifo_if.h:78-96 | A status byte is a filter region and an error code, and the bits tested are the code |
| FifoRx.Reader.FindEnd | exanic/include/exanic/fifo_rx.c:256-306 | On a quiet ring the scan finds the newest chunk that ends a frame, in write order, wherever the lap stands |
| FifoRx.Reader.Catchup | exanic/include/exanic/fifo_rx.c:248-330 | The reader then stands right after it with the right generation, and reading on starts at a frame |
| FifoRx.Reader.constructor | exanic/include/exanic/fifo_rx.c:248-330 | A new reader stands after the newest end of a frame, or at the write position, with the right generation |
| FifoRx.Reader.ReceiveFrame | exanic/include/exanic/fifo_rx.c:332-427 | A positive result is one whole frame as the card wrote it, never torn or mixed, with the card writing between any two accesses; each other result says what the reader moved over or where the card is: too long, bad, nothing written, the frame begun and not continued, or the card come round to the sentinel; after any result the next call can be made |
| FifoRx.Reader.Run | exanic/include/exanic/fifo_rx.c:332-427 | Over any number of calls the reader moves over whole frames in the order written: each result is the frame moved over, each call starts where the last one ended, at the first chunk of a frame; nothing, waiting and overflow are reported only with the card at the reader, in the middle of a frame, or past the sentinel, and only an overflow skips any |
| FifoRx.Reader.CopyPayload | exanic/include/exanic/fifo_rx.c:360-399 | A copy made while the card runs is right unless the card got a whole ring ahead meanwhile |
| FifoRx.Reader.Lapped | exanic/include/exanic/fifo_rx.c:369-381 | The sentinel test after the copy detects exactly that |
| FifoRx.Reader.ReceiveChunkInplace | exanic/include/exanic/fifo_rx.h:169-224 | The chunk handed out in place is the next one written, with its length, its number and whether the frame goes on; overflow only if the card has gone past it |
| FifoRx.Reader.Recheck | exanic/include/exanic/fifo_rx.h:313-320 | Within 255 laps it succeeds if and only if no newer chunk has taken the slot; then all later chunks are intact, and this one unless its slot is the one being written |
| FifoRx.Reader.RecheckTorn | exanic/include/exanic/fifo_rx.h:313-320 | On every chunk torn by the card at that moment the recheck succeeds |
| PollBody.StaysInFrame | exanic/include/exasock/exanic.c:1167-1300 | Reading just enough chunks stays in the current frame if and only if the frame holds the bytes asked for |
| PollBody.CoversChunk | exanic/include/exasock/exanic.c:1200-1201 | Adding the part of a chunk that is wanted keeps the accumulator congruent to the sum of the prefix read, for frames cut at even places |
| PollBody.Drain | exanic/include/exasock/exanic.c:1232-1259 | One phase puts exactly its bytes into its buffer, leaves the rest for the next phase, and fails only on an error or on a frame that ends inside the phase |
| PollBody.RecvBody | exanic/include/exasock/exanic.c:1164-1300 | On success the two buffers together are the bytes after the skipped ones, and if the frame holds them the accumulator has gained the checksum of the whole prefix |
| PollBody.CrossesFrames | exanic/include/exasock/exanic.c:1220-1300 | A frame that ends with the byte that fills the first buffer: the second takes a byte of the next frame, and the call succeeds |
| InPlace.ShortWritten | exanic/include/exasock/exanic.c:1220-1300 | That feed is what the chunk reader returns after two chunks the card can write at any time |
| InPlace.Collect | exanic/include/exasock/exanic.c:1196-1288 | What successive calls return, with the card writing during each, tells the chunks as written, in order, if in the end the card has not come round to the first |
| InPlace.ReceivePacket | exanic/include/exasock/exanic.c:1332-1380 | Header chunk, body loop and recheck together, with the card running throughout: if the recheck passes and the card is not writing that very slot, the buffers hold the bytes as written, and if they lie in one frame the sum is theirs; a refusal means no packet, an error, a chunk shorter than the header, a frame that ended or was marked bad too early, calls that ran out, or an overwritten header |
| InPlace.ShowsFrame | exanic/include/exasock/exanic.c:1332-1380 | The bytes so copied lie in one frame if and only if the frame, when complete, is long enough; then they are that frame's bytes |
| RwLock.StepInv | exanic/include/exasock/rwlock.h:29-133 | Every atomic access of lock, trylock, unlock and downgrade keeps tickets, holders and the three bytes consistent, for up to 255 threads; what each operation achieves is in the rows below |
| RwLock.TryWriteIff | exanic/include/exasock/rwlock.h:29-40 | The swap of the write trylock takes the lock if and only if nobody waits or holds and no ticket was taken since the load, modulo 256; otherwise only the thread changes |
| RwLock.TryReadIff | exanic/include/exasock/rwlock.h:86-98 | The swap of the read trylock takes the lock if and only if only readers hold it, nobody waits, and no ticket was taken or given back since the load; otherwise only the thread changes |
| RwLock.TryWriteAlone | exanic/include/exasock/rwlock.h:29-40 | Left alone, the write trylock succeeds if and only if the lock is free, and one that fails leaves everything as it was |
| RwLock.TryReadAlone | exanic/include/exasock/rwlock.h:86-98 | Left alone, the read trylock succeeds if and only if at most readers hold the lock and nobody waits, and one that fails leaves everything as it was |
| RwLock.WriteLockAlone | exanic/include/exasock/rwlock.h:42-50 | A writer gets a free lock at once |
| RwLock.WriteUnlock | exanic/include/exasock/rwlock.h:64-84 | Unlocking frees the writer, downgrading makes it a reader, and nobody else moves |
| RwLock.ReadLockAlone | exanic/include/exasock/rwlock.h:100-114 | A reader gets the lock at once while only readers hold it |
| RwLock.GateIff | exanic/include/exasock/rwlock.h:42-114 | A writer's gate opens if and only if everyone else waits behind it; a reader's also while readers hold the lock |
| RwLock.MutualExclusion | exanic/include/exasock/rwlock.h:29-133 | In every interleaving a writer excludes everyone, tickets are admitted in order, tickets minus releases count the threads waiting or holding, and the 8-bit counters agree with unbounded ones |
| RwLock.AssertionsHold | exanic/include/exasock/rwlock.h:52-62 | The assertions in unlock and downgrade never fail for a thread that holds the lock |
| RwLock.LockedIff | exanic/include/exasock/rwlock.h:52-126 | At any time the test for reading tells whether a reader holds the lock; the one for writing, whether somebody waits or holds and no reader holds |
| RwLock.WriteLockedIff | exanic/include/exasock/rwlock.h:52-62 | So the test for writing says whether a writer holds the lock if and only if somebody holds it or nobody waits |
| RwLock.WaitingLooksWritten | exanic/include/exasock/rwlock.h:52-62 | The failing case: a reader that has just taken the only ticket |
| RwLock.NoDeadlock | exanic/include/exasock/rwlock.h:42-113 | Whenever threads wait or hold, one of them can take a step |
| RwLock.WorkFalls | exanic/include/exasock/rwlock.h:29-133 | Every step of a thread that waits or holds brings the lock closer to being free |
| RwLock.Drains | exanic/include/exasock/rwlock.h:29-133 | From every reachable state the threads under way can run until the lock is free |
| RwLock.ReadersShare | exanic/include/exasock/rwlock.h:86-114 | For every k up to the number of threads, k readers hold the lock at once in some run |
| Reclaim.PathSplice | exanic/include/exasock/structs.h:389-415 | Unlinking removes the item from every path through its predecessor and leaves a walk that already passed it on a path that still ends |
| Reclaim.Find | exanic/include/exasock/structs.h:365-386 | The search finds the item if and only if it is linked, and with it the item before |
| Reclaim.ChainChanges | exanic/include/exasock/structs.h:389-415 | Inserting puts the socket in front; unlinking takes out exactly it, wherever it is, and keeps the order of the others |
| Reclaim.RequestTakes | exanic/include/exasock/structs.h:289-295 | Load and swap left alone take the next request number |
| Reclaim.StepInv | exanic/include/exasock/structs.h:287-303 | Every step of removers, inserters and the poller keeps the chain intact and reclaimed sockets out of the poller's reach |
| Reclaim.GracePeriod | exanic/include/exasock/structs.h:287-303 | After the wait has returned no poll section is at the socket or can still reach it, for any number of removers and any interleaving |
| Reclaim.WalkComplete | exanic/include/exasock/structs.h:365-386 | A walk that ran to the end has passed every socket linked all along, however the chain changed meanwhile |
| Reclaim.PollFinds | exanic/include/exasock/structs.h:365-386 | A poll section that is left alone walks past every linked socket and comes to the end |
| Reclaim.WaitEnds | exanic/include/exasock/structs.h:297-302 | The acknowledgement at the end of the next poll section lets the owner go, so the wait does end |
| Reclaim.WaitIff | exanic/include/exasock/structs.h:297-302 | Each look of the waiting loop ends it if and only if the poll lock is free or the request acknowledged, for requests less than 2^31 old |
| Reclaim.EarlyIff | exanic/include/exasock/structs.h:300-301 | The 32-bit test passes before the acknowledgement if and only if more than 2^31 requests are ahead of it, modulo 2^32 |
| Reclaim.EarlyReturn | exanic/include/exasock/structs.h:300-301 | A reachable state in which the wait returns while the poller is at the socket |
| UdpQueue.ChainAppend | exanic/include/exasock/udp_queue.h:54-81 | A datagram stored at the end extends the chain of entries that the reader will follow |
| UdpQueue.ChainFrame | exanic/include/exasock/udp_queue.h:12-52 | Writing outside the entries leaves the queue as it was |
| UdpQueue.Queue.WriteAlloc | exanic/include/exasock/udp_queue.h:12-52 | Exactly when space is found, on this lap or by wrapping; the queue does not change, even when the allocation wraps |
| UdpQueue.Queue.WriteCommit | exanic/include/exasock/udp_queue.h:54-81 | The datagram joins the end of the queue unmodified, and the write position stays inside the buffer |
| UdpQueue.Queue.WriteAbort | exanic/include/exasock/udp_queue.h:83-86 | An aborted allocation is never seen, also after it wrapped |
| UdpQueue.Queue.Ready | exanic/include/exasock/udp_queue.h:88-104 | Readable means non-empty, unless an empty datagram fronts the marker; then it means that something is queued behind the marker |
| UdpQueue.Queue.ReadBegin | exanic/include/exasock/udp_queue.h:106-162 | Gives the oldest datagram unmodified, or none exactly if there is none; the queue loses datagrams if and only if an empty one fronts the marker |
| UdpQueue.Queue.ReadEnd | exanic/include/exasock/udp_queue.h:164-174 | Removes exactly the datagram read |
| UdpQueue.Queue.Run | exanic/include/exasock/udp_queue.h:5-180 | Over any interleaving of writer, reader and peeks, the queue, the datagrams delivered and those shown are exactly those of the reference queue, and an allocation that is granted gets all the space it asks for |
| UdpQueue.NextQueue | exanic/include/exasock/udp_queue.h:5-180 | Each event of the reference adds at the end and delivers from the front, and loses something exactly when a read or a peek meets an empty datagram in front of the marker |
| UdpQueue.StoreAdds | exanic/include/exasock/udp_queue.h:12-81 | Wherever the space is granted, what is allocated, filled and committed adds one datagram: that endpoint, the first bytes of what was filled in, those timestamps |
| UdpQueue.StoreThenTake | exanic/include/exasock/udp_queue.h:12-174 | A datagram alone in the queue comes out as it went in, at any place of the ring |
| UdpQueue.FifoIff | exanic/include/exasock/udp_queue.h:5-180 | In every run, what was delivered followed by what is queued is what was there followed by what was committed, in order, if and only if no read or peek met an empty datagram in front of the marker |
| UdpQueue.NoneLost | exanic/include/exasock/udp_queue.h:5-180 | A run without empty datagrams loses none |
| UdpQueue.PeekFirst | exanic/include/exasock/socket/recv.c:242-245 | A peek shows the datagram that the next read delivers, and makes no difference to it or to another peek |
| UdpQueue.EmptyDatagramLost | exanic/include/exasock/udp_queue.h:122-127 | A sequence of stores and reads after which an empty datagram has been skipped |
| Checksum.PartSimple | exanic/include/exasock/checksum.h:13-29 | The portable loop adds the little-endian 16-bit words, the last byte padded |
| Checksum.Pack | exanic/include/exasock/checksum.h:33-41 | Folding yields the ones' complement sum of section 2 of RFC 1071: zero only for zero |
| Checksum.Chain | exanic/include/exasock/checksum_amd64.h:16-40 | Four add-with-carry steps and a final carry lose nothing: the last carry is never set |
| Checksum.Blocks | exanic/include/exasock/checksum_amd64.h:9-60 | The loop with four accumulators over 128-byte blocks adds like the simple loop |
| Checksum.Tail | exanic/include/exasock/checksum_amd64.h:62-113 | The tail by powers of two adds every remaining byte once and does not overflow |
| Checksum.Part | exanic/include/exasock/checksum_amd64.h:4-113 | For every length and every starting sum with room for the tail, the result is congruent to the portable one |
| Checksum.Csum | exanic/include/exasock/checksum.h:51-55 | So the packed checksum is that of the simple form |
| Checksum.SplitEven | exanic/include/exasock/checksum.h:57-90 | Sums of pieces cut at even places add up |
| Checksum.SplitOdd | exanic/include/exasock/checksum.h:74-79 | A piece that starts at an odd place contributes its first byte as a high byte |
| ChecksumIov.AddBuffer | exanic/include/exasock/checksum.h:68-82 | One scattered buffer adds its share whatever the parity it starts on |
| ChecksumIov.CsumIov | exanic/include/exasock/checksum.h:57-90 | For any scatter list, skip and length, the checksum of the flat bytes |
| Headers.FieldWorks | exanic/include/exasock/ip.h:147-148 | Storing the complement of the sum makes the whole sum to all ones |
| Headers.AllOnesIff | exanic/include/exasock/checksum.h:51-55 | The sum over little-endian words is all ones if and only if the network-order sum of RFC 1071 is |
| Headers.PseudoOnes | exanic/include/exasock/udp.h:64-104 | What is tested with the cached sum is the sum over the bytes of pseudo-header, header and data |
| Headers.BuildIp | exanic/include/exasock/ip.h:140-152 | The built header differs from the cached one in length and checksum only; its length bytes are the total, big-endian, and its bytes sum to all ones |
| Headers.CheckIp | exanic/include/exasock/ip.h:101-137 | Accepts exactly what has 20 bytes, version 4, no fragment bits and a header, as long as its own length field says, whose bytes sum to all ones; the length of what follows may wrap |
| Headers.IpRoundTrip | exanic/include/exasock/ip.h:101-152 | Every header built passes whatever follows it, and the receiver finds the length of what follows if and only if all fits the 16-bit field |
| Headers.UdpTx.SetSrc | exanic/include/exasock/udp.h:44-52 | The cached partial sum stays that of the addresses and ports |
| Headers.UdpTx.SetDest | exanic/include/exasock/udp.h:54-62 | The cached partial sum stays that of the addresses and ports |
| Headers.UdpTx.Build | exanic/include/exasock/udp.h:169-183 | Every datagram built, from any scatter list, has the ports and the big-endian length, and sums to all ones with the pseudo-header of RFC 768 (addresses, zero, protocol 17, length), byte for byte; also when its checksum field comes out as zero |
| Headers.CheckUdp | exanic/include/exasock/udp.h:64-104 | Accepts exactly datagrams whose bytes sum to all ones behind that pseudo-header, or that carry a zero checksum field |
| Headers.ReceiveUdp | exanic/include/exasock/udp.h:64-104 | Accepts exactly packets whose length field covers the header and lies in the packet, and that pass the checksum test; what is beyond the length field is ignored |
| Headers.UdpRoundTrip | exanic/include/exasock/udp.h:64-183 | From any scatter list, the receiver gets the data unmodified, whatever padding follows, if and only if its length fits the 16-bit field |
| Headers.TcpAddresses | exanic/include/exasock/tcp.h:288 | The sum a connection caches is that of the two addresses and the protocol |
| Headers.BuildTcp | exanic/include/exasock/tcp.h:581-612 | Every segment built sums to all ones with the pseudo-header of RFC 9293 (addresses, zero, protocol 6, length), byte for byte; the other header fields are kept |
| Headers.CheckTcp | exanic/include/exasock/tcp.h:614-673 | Accepts exactly segments whose bytes sum to all ones behind that pseudo-header, or that carry a zero checksum field |
| Headers.ReceiveTcp | exanic/include/exasock/tcp.h:614-673 | Accepts exactly packets whose header length is at least 20 and within the packet, and that pass the checksum test |
| Headers.TcpRoundTrip | exanic/include/exasock/tcp.h:581-673 | From any scatter list, the receiver gets the data unmodified |
| StreamCaches.HoldsShift | core/stream.go:99-141 | Taking bytes, or giving back bytes just taken, keeps taken bytes followed by the queue equal to all bytes given |
| StreamCaches.StreamCache.Compact | core/stream.go:38-59 | Shifting in place keeps the queue, and is paid for by bytes taken since the last shift |
| StreamCaches.StreamCache.Grow | core/stream.go:60-91 | The larger buffer holds the queue and room for the data |
| StreamCaches.StreamCache.Append | core/stream.go:31-96 | The queue grows by the data, whatever was shifted or replaced; capacity, positions and bytes shifted change exactly as planned |
| StreamCaches.StreamCache.Rotate | core/stream.go:98-141 | Takes that many bytes, or all there are; a negative count gives back the last ones taken |
| StreamCaches.StreamCache.Merge | core/stream.go:148-172 | Returns the whole queue with the data at its end |
| StreamCaches.ShiftsPaid | core/stream.go:31-172 | Over every sequence of operations the bytes shifted in place and those taken since the last shift together are no more than the bytes taken |
| StreamCaches.CapBounded | core/stream.go:31-172 | However long a run, the buffer stays within four times what was outstanding at most, unless it was larger to begin with |
| StreamCaches.Run | core/stream.go:31-172 | In every run the queue is what was given less what the counts took, no more bytes were shifted in place than that, and the capacity is so bounded |
| HwTime.JoinRight | exanic/include/exanic/time.c:9-29 | Reads of high, low and high half up to 2^31 ticks apart give the counter at the middle read |
| HwTime.JoinIff | exanic/include/exanic/time.c:9-29 | A span is always read right if and only if it is at most 2^31 ticks |
| HwTime.Expand | exanic/include/exanic/time.c:31-49 | The expansion agrees with the timestamp modulo 2^32 and is within 2^31 of the clock, also where the signed 64-bit clock turns |
| HwTime.ExpandIff | exanic/include/exanic/time.c:45-46 | A packet's full time is recovered if and only if it was stamped within 2^31 ticks of the clock, for every signed 64-bit clock value |
| HwTime.PicosExact | exanic/include/exanic/time.c:51-62 | For every tick rate and cycle count, picoseconds are the exact floor, and no 64-bit step overflows |
| HwTime.NanosCut | exanic/include/exanic/time.c:64-70 | Nanoseconds are the picoseconds with three digits dropped, with the same seconds |

## Left out

- TcpReceive.Receiver.Run: takes damaged segments that meet at most one queued range, the exact limit of `AbortHarmlessIff`, and arrivals less than 2^30 behind or 2^31 ahead of the reader; the kernel claims no data that leaves a queued range 2^30 behind.
- TcpReceive.Receiver.ProcSeqUpdate: the kernel claims in order and acknowledges all it claimed, each in one step; the kernel module is not part of this model.
- TcpReceive.Complete: for runs without the kernel, which `ExecKnows` and `OnlyBrought` cover, and without a seventh range pushed out of the list or a damaged segment over a queued range, which are what throws bytes away.
- TcpState.NothingLost: sequence numbers that are compared are less than 2^31 apart, as the comparisons assume; the window end follows the same loop as the acknowledged position and is not repeated; opening a connection uses plain stores and is not modelled.
- TxLayout.RunTight: the spacing of requests is stated for chunks sent as long as they were prepared; a shortened one is judged by its prepared length.
- TxLayout.RunSafe: the card reports requested chunks in order; the branch for a report out of range is then never taken and is not modelled.
- FifoTx.QueueLength: buffers from 4 KiB to less than 4 MiB, beyond which the table outgrows the 16-bit numbers.
- FifoRx.Reader.ReceiveFrame: the card gets fewer than 255 laps ahead of the last frame read, beyond which the 8-bit generation repeats; the info word is read at once.
- FifoRx.Reader.ReceiveChunkInplace: the card gets fewer than 255 laps ahead of the next chunk.
- RwLock.MutualExclusion: at most 255 threads, as the byte counters require.
- Reclaim.GracePeriod: one bucket of the table, at most 2^31 requests ahead of the acknowledgement when it is read; the hash and the key comparison are not modelled.
- PollBody.RecvBody: the sum is stated for frames cut at even places, as the card cuts them; the chunk reader is a feed of what it returns, which `InPlace.Collect` ties to the card.
- InPlace.ReceivePacket: each chunk is looked at once, where the code reads it for the sum and again for the copy; the header ends at an even place, as Ethernet, IP, UDP and TCP headers do.
- Headers.CheckIp: the test of the destination address is left out.
- Headers.UdpRoundTrip: no inner headers, as the one caller has it.
- Headers.BuildTcp: the fixed header without options; option parsing and control segments are left out.
- StreamCaches.StreamCache.Grow: the bytes copied into larger buffers are not bounded.
- Memory ordering weaker than sequential consistency, cache prefetch, logging, profiling and latency macros.
- The other chunk readers of the receive ring (`exanic_receive_chunk`, the `_ex` forms, `exanic_receive_abort`): the same loop over the same ring.
- Duplicate-acknowledgement counters and the out-of-order statistics of the TCP receive path.
- Multicast and unicast lookup in the shared hash table, which casts between two item types.
- `exanic_cycles_to_ps` and its overflow flag; the ppc64 checksum; the second copy of the checksum headers.
- Sockets, bonding, epoll notification, interface and reference-count code, which is mostly kernel calls.
- Port, filter, firewall, eeprom, transceiver and register access, ioctl and mmap wrappers.
- `pcap`, `socket`, `onload`, the cgo bridges and the example programs.
- `core/buffer.go`, header unpacking and string methods in `core`: small members of their own.
