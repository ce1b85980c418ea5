# Models and proofs for the gateway firmware

A Dafny model of the parts of the firmware that carry data: the uIP TCP engine with its application
callback, the packet memory pool of the Ethernet controller and the socket buffers on it, the AES
cipher, the SHA-256/HMAC/base64url/JWT code, the LoRa message chain, and the small codecs and tables of
the IP stack. `dafny verify dfyconfig.toml` checks everything.

| file | what it is about |
|---|---|
| `Basics.dfy` | bytes and optional values |
| `MemoryPool.dfy` | the pool: a list of blocks threaded through a handle array, best fit, compaction |
| `SocketBuffers.dfy`, `UdpBuffers.dfy` | the byte queues of TCP and UDP sockets over the pool |
| `Tcp.dfy`, `TcpEngine.dfy` | one connection: a step of `uip_process`, cut where the application is called, and the code that makes it field by field |
| `TcpDelivery.dfy`, `TcpReceiving.dfy` | in-order delivery over whole runs, to the application and to the caller of `recv` |
| `TcpBlocks.dfy`, `TcpCallback.dfy`, `TcpSending.dfy` | the blocks to send and the write path, the application callback, stop-and-wait and conservation of bytes |
| `TcpAnswers.dfy`, `TcpConversation.dfy` | what leaves in answer to what, stopping and going on; two connections opening, carrying a block and closing |
| `TcpProgress.dfy` | what the timer alone brings to CLOSED, and when |
| `TcpTable.dfy` | the connection table, demultiplexing, ports, 32-bit addition on bytes |
| `AesStandard.dfy`, `ModeStandard.dfy`, `Sha256Standard.dfy` | tables, constants and steps against FIPS 197, SP 800-38A and FIPS 180-4 |
| `AesBlock.dfy`, `AesModes.dfy`, `AesCipher.dfy` | block inverse; ECB/CBC with ciphertext stealing; the object that does both in place |
| `Sha256.dfy`, `Hmac.dfy`, `Base64Url.dfy`, `Jwt.dfy` | hashing in pieces, HMAC, the codec, tokens |
| `LoRaChain.dfy`, `LoRaHandlers.dfy` | the message chain on values and as handlers on one buffer |
| `Checksum.dfy`, `Ip6Text.dfy`, `Arp.dfy` | Internet checksum and ICMP echo, IPv6 text, ARP cache |

Integers are unbounded in Dafny; widths are written out where they matter: sequence numbers and the SHA
length wrap, the timers and the ARP clock are bytes, and the lengths that reach the controller's reads
and writes have 16 bits. `char` is taken
as unsigned, as on the target. Shifts and masks of the base64url code are written as division and
remainder; AES, SHA-256 and the checksum text use bit vectors.

## Where the code does not do what one would expect

The members named give the input on which it happens and, for all inputs, when it does.

* Timeouts do not free every connection. A reset that finds the user closing with blocks not sent yet
  sets the stop bit on the closed slot; with nothing outstanding no event frees the slot again
  (`AbandonedByReset`, `ZombieForever`, `TimeoutProgress`). A zero-length write followed by a close also
  leaves an established connection at rest under timer events, however many; only the peer ends it
  (`EmptyWriteRests`).
* Data that reaches a closing connection together with the acknowledgement of its FIN is counted and not
  answered; only when it is sent again is it acknowledged (`HalfClosedAnswers`, `UnansweredDataComesAgain`).
* A store that fails while the queue is empty stops the connection, and only `recv` giving back a block
  would open it again; with nothing in the queue neither data nor a FIN is taken any more (`StuckUntilRead`;
  `Recv` says exactly when a restart is asked for).
* A block longer than the peer's segment size is sent cut and dropped whole on its acknowledgement, so
  its tail is lost (`LongBlockLosesBytes`; `StopAndWait` gives the exact condition).
* A write of 65536 bytes or more can leave a block half-filled and go on to the next; such blocks are
  sent as full (`LongWriteLeavesGaps`; `WrittenUnlessGap` gives the exact condition).
* When the queue or the pool is full the bytes of a segment are lost to `recv`, since they were acknowledged
  before the store was tried (`KeptPacketIsStale`; `EndToEnd` gives the exact condition in terms of the
  pieces and the reads between them, `EagerLosesNothing` a way of reading under which it never happens).
* A UDP datagram without data makes the pool link a block of no bytes, and the list has no valid layout
  from then on (`ArriveEmpty`, `AllocNothing`).
* After ciphertext stealing in CBC mode the two sides hold different carry vectors, so only the last
  message of a stream may have a partial last block (`StealingSplitsCarries`; `CarryAgreement` and
  `StreamRoundTrip` give the exact condition).
* A token with an empty payload is refused, because `strtok` takes two dots for one (`TokenRoundTrip`).
* The LoRa receiver takes the last decrypted byte for a padding count that the sender never wrote; a byte
  left over in the sender's buffer can cost characters of the text (`ChainRoundTrip`, `LeftoverCutsText`).
* `recv` and `UdpSocket::read` of 65536 bytes or more look only at the low 16 bits of the count (`Recv`,
  `Read`).
* The checksum over the controller's memory does not end for length 0 (`EmptySumNeverEnds`).
* The ARP cache does not recognise addresses with a zero half, and goes on finding the old entry
  (`AnnounceTwice`; `Update` says exactly when the new one is found).
* The reply to an empty echo request sums to 0 and not to 65535 (`EmptyEchoReply`; `StrictEchoReply` gives
  the exact condition).

## Model

| member | source | states |
|---|---|---|
| `TcpDelivery.InOrderDelivery` | Modules/UIPEthernet/utility/uip.c:1490-1945 | over every run from the opening on, with any loss, repetition, reordering and any application, the bytes handed over are a prefix of the peer's stream; while ESTABLISHED their number is exactly what rcv_nxt counts; in LAST_ACK they are the whole stream |
| `TcpDelivery.RunKeepsPosition` | Modules/UIPEthernet/utility/uip.c:1490-1945 | the receiver's position is an invariant of every run, in every state |
| `TcpDelivery.StepKeepsPosition` | Modules/UIPEthernet/utility/uip.c:1490-1945 | one step with any reply of the application keeps the position |
| `TcpDelivery.EstablishedKeepsPosition` | Modules/UIPEthernet/utility/uip.c:1697-1750 | ESTABLISHED takes a segment only in sequence, the FIN only when nothing is outstanding, nothing while stopped |
| `TcpDelivery.AcceptingKeepsPosition` | Modules/UIPEthernet/utility/uip.c:1593-1614 | SYN_RCVD starts the position at the peer's initial sequence number and delivers what came with the acknowledgement |
| `TcpDelivery.ConnectingKeepsPosition` | Modules/UIPEthernet/utility/uip.c:1615-1685 | SYN_SENT takes the peer's initial sequence number from the SYN-ACK |
| `TcpDelivery.StaleSegmentIsTaken` | Modules/UIPEthernet/utility/uip.c:1524-1536 | the bound on staleness is exact: a segment from 2^32 bytes ago is taken for new data |
| `TcpDelivery.FinWait1KeepsPosition` | Modules/UIPEthernet/utility/uip.c:1881-1915 | FIN_WAIT_1 counts bytes and the FIN without delivering |
| `TcpDelivery.FinWait2KeepsPosition` | Modules/UIPEthernet/utility/uip.c:1917-1935 | so does FIN_WAIT_2 |
| `TcpDelivery.SameOffset` | Modules/UIPEthernet/utility/uip.c:1524-1536 | equal 32-bit numbers of positions less than 2^32 apart are equal positions |
| `TcpDelivery.OpenersJustOpen` | Modules/UIPEthernet/utility/uip.c:1405-1425 | both ways of opening a connection establish the starting condition |
| `TcpReceiving.EndToEnd` | Modules/UIPEthernet/TcpClient.cpp:504-531 | over every run of events and reads from the opening on: the bytes that go through the queue are all that was delivered exactly when the store's guard, computed along the run from the sizes of pieces and reads, held before each event; then they are the beginning of the peer's stream |
| `TcpReceiving.RoomIsConserved` | Modules/UIPEthernet/TcpClient.cpp:352-388 | in every run free bytes and waiting bytes, free handles and waiting blocks add up to the same |
| `TcpReceiving.EagerLosesNothing` | Modules/UIPEthernet/TcpClient.cpp:352-388 | a user who reads each piece before the next comes, with pieces no larger than the free pool, never loses one, however long the run |
| `TcpReceiving.Receiver.ServeAll` | Modules/UIPEthernet/TcpClient.cpp:352-531 | the objects do this: engine, store and recv run through any list of moments, and what was read and what waits is all that was delivered exactly when there always was room |
| `TcpReceiving.Receiver.Handle` | Modules/UIPEthernet/TcpClient.cpp:504-531 | an event through the engine and the store moves connection and room as predicted, and appends to the queue exactly a piece that is wanted and fits |
| `TcpReceiving.Receiver.Take` | Modules/UIPEthernet/TcpClient.cpp:352-388 | recv moves the next of the waiting bytes to the user, and gives back the room of the blocks read |
| `TcpReceiving.KeptPacketIsStale` | Modules/UIPEthernet/TcpClient.cpp:529-530 | a packet kept for another try is out of sequence then, with or without a FIN, because rcv_nxt has moved, and is not delivered again |
| `TcpSending.StopAndWait` | Modules/UIPEthernet/TcpClient.cpp:479-636 | over every run of network events, writes, closes and reads: the pair stays safe, what was written is what was given back plus what is queued, snd_nxt counts the acknowledged bytes, and - no write leaving a gap - the peer acknowledged all that was given back exactly when every block was at most the segment size when sent |
| `TcpCallback.StepKeepsSafe` | Modules/UIPEthernet/TcpClient.cpp:479-636 | every call keeps: ESTABLISHED with len > 0 implies packets_out[0] holds the block in flight, sealed; the callback has let go in every closing state; len = 0 only in CLOSED, ESTABLISHED, FIN_WAIT_2, TIME_WAIT |
| `TcpSending.SendSequenceMoves` | Modules/UIPEthernet/utility/uip.c:1542-1585 | snd_nxt moves by exactly len and only on an exact acknowledgement, whatever the application answers |
| `TcpSending.NoCloseInFlight` | Modules/UIPEthernet/TcpClient.cpp:608-630 | uip_close is never called with data outstanding, and a FIN leaves only after the acknowledgement |
| `TcpSending.DataIsNextWritten` | Modules/UIPEthernet/TcpClient.cpp:574-609 | while all blocks fitted, a data segment carries the bytes written next behind those acknowledged, at the sequence number that counts them |
| `TcpSending.SentIsTruthful` | Modules/UIPEthernet/TcpClient.cpp:574-609 | at every point of every run such a segment is a true piece of the stream the user will have written in the end: what in-order delivery asks of a segment, so that two such stacks compose |
| `TcpSending.DataCarriesFlight` | Modules/UIPEthernet/TcpClient.cpp:574-609 | every data segment, first or repeated, stands at the sequence number of the flight and has its size, and carries its bytes exactly when the block could be copied into the outgoing packet |
| `TcpSending.FlightIsConstant` | Modules/UIPEthernet/utility/uip.c:1799-1860 | until its acknowledgement the flight, its length and its sequence number do not change, so a retransmission repeats the same bytes |
| `TcpSending.SentWhole` | Modules/UIPEthernet/utility/uip.c:1823-1832 | a block goes out whole exactly when it is no longer than the segment size |
| `TcpSending.LongBlockLosesBytes` | Modules/UIPEthernet/TcpClient.cpp:566-572 | a run in which two of three written bytes are acknowledged and the third is gone |
| `TcpBlocks.WritePass` | Modules/UIPEthernet/TcpClient.cpp:246-315 | a pass of _write does what a writer expects - a prefix of the data behind the queued bytes, blocks full in front, a sealed block left alone - exactly when it leaves no gap, as with every write below 65536 bytes; it stops short only at the last slot or when the pool refuses |
| `TcpBlocks.WrittenUnlessGap` | Modules/UIPEthernet/TcpClient.cpp:246-315 | the same of the pass as a function, for every client, length and number of blocks to be had |
| `TcpBlocks.PassPacks` | Modules/UIPEthernet/TcpClient.cpp:284-305 | the blocks in front are full after a pass exactly when no block was skipped half-filled, for the low 16 bits of each remaining length |
| `TcpBlocks.LongWriteLeavesGaps` | Modules/UIPEthernet/TcpClient.cpp:284-305 | 65536 bytes to an idle client: nothing is written, five blocks are queued, and the first is offered as 512 bytes |
| `TcpBlocks.FillAppends` | Modules/UIPEthernet/TcpClient.cpp:284-292 | writing at out_pos of the last block appends as many bytes as fit and the 16-bit length says |
| `TcpSending.OpenBooks` | Modules/UIPEthernet/utility/uip.c:483-500 | both ways of opening a connection, on any slot and with any client left on it, establish the invariant |
| `TcpCallback.CallbackListens` | Modules/UIPEthernet/TcpClient.cpp:504-630 | called without poll or retransmission the callback sends nothing, drops one block per acknowledgement, and closes only with no block left |
| `TcpCallback.CallbackOffers` | Modules/UIPEthernet/TcpClient.cpp:574-609 | called to poll or retransmit it offers the first block whole and seals it |
| `TcpAnswers.NumbersAreCurrent` | Modules/UIPEthernet/utility/uip.c:1957-1975 | every segment that leaves a step carries the sequence number and the acknowledgement of the record it leaves behind |
| `TcpAnswers.AcknowledgesPosition` | Modules/UIPEthernet/utility/uip.c:1957-1975 | over every run the acknowledgement says exactly how far the receiver has come in the peer's stream |
| `TcpAnswers.DeliveredIsAcknowledged` | Modules/UIPEthernet/utility/uip.c:1697-1866 | what a step hands to the application is acknowledged by what leaves in the same step, a FIN with it |
| `TcpAnswers.OpeningIsAcknowledged` | Modules/UIPEthernet/utility/uip.c:1615-1666 | the third segment of an active open leaves, and acknowledges the peer's SYN |
| `TcpAnswers.AnsweredUnless` | Modules/UIPEthernet/utility/uip.c:1490-1945 | nothing leaves in answer to a segment exactly in the listed cases, for every state, application and segment |
| `TcpAnswers.AnswerKinds` | Modules/UIPEthernet/utility/uip.c:1490-1945 | a FIN leaves exactly on entering FIN_WAIT_1 or LAST_ACK, a reset exactly when an opening fails, else a pure acknowledgement |
| `TcpAnswers.HalfClosedAnswers` | Modules/UIPEthernet/utility/uip.c:1881-1935 | FIN_WAIT_1 and FIN_WAIT_2: next state and answer for every segment in sequence, with the one case that is not answered |
| `TcpAnswers.UnansweredDataComesAgain` | Modules/UIPEthernet/utility/uip.c:1907-1912 | such data is acknowledged when it is sent again |
| `TcpAnswers.LastStates` | Modules/UIPEthernet/utility/uip.c:1871-1945 | CLOSING, TIME_WAIT and LAST_ACK: next state and answer |
| `TcpAnswers.AckSettles` | Modules/UIPEthernet/utility/uip.c:1542-1585 | an exact acknowledgement moves snd_nxt, empties the flight and restarts the timer; the round-trip estimate only without retransmissions |
| `TcpAnswers.SizeFollowsWindow` | Modules/UIPEthernet/utility/uip.c:1752-1772 | the segment size follows the peer's window, never above the initial one and never to zero |
| `TcpAnswers.ClockSends` | Modules/UIPEthernet/utility/uip.c:738-863 | exactly what a tick or a poll sends: the same segment again, a reset after too many tries, the next block, a FIN, or the news of a restart |
| `TcpAnswers.StopsExactly` | Modules/UIPEthernet/TcpClient.cpp:504-636 | exactly when the callback leaves the stop bit set |
| `TcpAnswers.LetsGoExactly` | Modules/UIPEthernet/TcpClient.cpp:541-636 | exactly when the callback lets its client go, and when it closes |
| `TcpAnswers.KeepsWishes` | Modules/UIPEthernet/TcpClient.cpp:535-538 | the callback keeps the wish to close and serves the wish to restart |
| `TcpAnswers.RestartReopens` | Modules/UIPEthernet/TcpClient.cpp:535-538 | a stopped user who asked to go on is open again after the next poll or tick, and a segment tells the peer so with an open window |
| `TcpAnswers.RestartThenTakes` | Modules/UIPEthernet/utility/uip.c:1741-1750 | the next piece in sequence, refused before, is delivered whole after that |
| `TcpAnswers.StuckUntilRead` | Modules/UIPEthernet/TcpClient.cpp:528-531 | without a restart a stopped connection takes nothing, not even a FIN, and stays so under every event but a reset or the end of its retransmissions |
| `TcpConversation.EndsMatch` | Modules/UIPEthernet/utility/uip.c:1969-1978 | a segment that leaves one end carries ports and address that the other end answers to |
| `TcpConversation.Handshake` | Modules/UIPEthernet/utility/uip.c:483-503 | uip_connect on one side and a listening port on the other, with three segments between them: both ends are established and in step, from any slots |
| `TcpConversation.BlockAcross` | Modules/UIPEthernet/TcpClient.cpp:574-609 | on an open connection the first block, cut to the segment size, is delivered, acknowledged and taken off the queue, and the ends are in step again |
| `TcpConversation.CloseBoth` | Modules/UIPEthernet/utility/uip.c:1697-1945 | a close with nothing left to send: four segments later the one end is in TIME_WAIT, the other closed, both clients let go |
| `TcpProgress.TimeoutProgress` | Modules/UIPEthernet/utility/uip.c:777-851 | under timer events alone a connection reaches CLOSED if and only if it is neither established with nothing to send or close nor a closed slot with the stop bit |
| `TcpProgress.TickLowersRank` | Modules/UIPEthernet/utility/uip.c:777-851 | every tick lowers a rank over retransmissions left and timer, or the time-wait clock modulo 256 |
| `TcpProgress.PendingCloses` | Modules/UIPEthernet/utility/uip.c:777-851 | a connection with something outstanding or in time-wait is closed after as many ticks as its rank |
| `TcpProgress.ClosesOnTime` | Modules/UIPEthernet/utility/uip.c:777-851 | a connection with something outstanding or in time-wait is closed by the clock after exactly as many ticks as its deadline |
| `TcpProgress.OpeningDeadlines` | Modules/UIPEthernet/utility/uip.c:786-836 | an unanswered attempt to connect is given up after 100 ticks, an unconfirmed one to accept after 102 |
| `TcpProgress.BackoffDoubles` | Modules/UIPEthernet/utility/uip.c:812-814 | the timeout starts at UIP_RTO and doubles four times |
| `TcpProgress.EmptyWriteRests` | Modules/UIPEthernet/TcpClient.cpp:251-308 | after a write of nothing and a close the connection rests under all ticks if a block could be had for the write, and is closed by them if not |
| `TcpProgress.AbandonedByReset` | Modules/UIPEthernet/utility/uip.c:1497-1503 | a closed slot keeps the stop bit exactly after a reset that finds the user closing with unsent blocks |
| `TcpProgress.ZombieForever` | Modules/UIPEthernet/utility/uip.c:1497-1503 | such a slot with nothing outstanding stays so under every event |
| `TcpEngine.Engine.Process` | Modules/UIPEthernet/utility/uip.c:726-1945 | the field-by-field code, with its working variables and labels, makes exactly the step of the model, for every application |
| `TcpEngine.Engine.Segment` | Modules/UIPEthernet/utility/uip.c:1490-1588 | reset, sequence check, acknowledgement and switch |
| `TcpEngine.Engine.InEstablished` | Modules/UIPEthernet/utility/uip.c:1683-1787 | the ESTABLISHED branch |
| `TcpEngine.Engine.AppSend` | Modules/UIPEthernet/utility/uip.c:1790-1870 | what is done with the application's answer |
| `TcpEngine.Engine.Tick` | Modules/UIPEthernet/utility/uip.c:771-851 | the timer branch, with byte counters and the capped backoff |
| `TcpTable.Stack.Connect` | Modules/UIPEthernet/utility/uip.c:443-503 | takes the best slot and a local port no live connection uses, changes one entry, and keeps live connections distinct; the entry waits to send its SYN and answers to exactly the segments from the port and address asked for to the local port |
| `TcpTable.ConnectRecordIs` | Modules/UIPEthernet/utility/uip.c:483-500 | the fields of the record: state, one outstanding, first sequence number, timers, ends |
| `TcpTable.ListenRecordIs` | Modules/UIPEthernet/utility/uip.c:1395-1465 | the same for a listener, with the peer's next sequence number and segment size |
| `TcpTable.CandidateRange` | Modules/UIPEthernet/utility/uip.c:448-453 | local ports go up to 31999 and on from 4096 |
| `TcpTable.Stack.FindPort` | Modules/UIPEthernet/utility/uip.c:448-463 | the port search ends, and at a free port |
| `TcpTable.TriedAreFew` | Modules/UIPEthernet/utility/uip.c:456-463 | pigeonhole: the ports in use are at most as many as the connections |
| `TcpTable.CandidatesDiffer` | Modules/UIPEthernet/utility/uip.c:448-452 | no port comes up twice within one turn of the cycle |
| `TcpTable.Stack.FindSlot` | Modules/UIPEthernet/utility/uip.c:464-481 | the first closed slot, else the one longest in time-wait, else none |
| `TcpTable.Stack.Input` | Modules/UIPEthernet/utility/uip.c:1286-1412 | the one matching connection makes its step; without a match the table and the answer are exactly as Unmatched says: reset, silence, or the best slot filled and a SYN-ACK; the slot a SYN fills answers to exactly the segments from where the SYN came, with its answer outstanding |
| `TcpTable.Stack.Step` | Modules/UIPEthernet/utility/uip.c:1490-1945 | one connection of the table goes through the engine, field by field, and the live connections stay distinct |
| `TcpTable.Stack.Demultiplex` | Modules/UIPEthernet/utility/uip.c:1286-1296 | finds the connection a segment is for, and it is the only one |
| `TcpTable.AtMostOneMatch` | Modules/UIPEthernet/utility/uip.c:1286-1296 | among distinct live connections a segment matches at most one |
| `TcpTable.Stack.Serve` | Modules/UIPEthernet/utility/uip.c:738-851 | a timer event or poll steps one connection and keeps the table distinct |
| `TcpTable.Stack.constructor` | Modules/UIPEthernet/utility/uip.c:408-420 | the table starts with no live connection |
| `TcpTable.StepKeepsKey` | Modules/UIPEthernet/utility/uip.c:1490-1945 | no step changes ports or address of a connection |
| `TcpTable.Add32` | Modules/UIPEthernet/utility/uip.c:265-287 | the byte-wise sum with carries is addition modulo 2^32 |
| `TcpTable.Increment` | Modules/UIPEthernet/utility/uip.c:760-769 | the initial sequence number is incremented modulo 2^32 |
| `MemoryPool.MemPool.AllocBlock` | Modules/UIPEthernet/utility/MemPool.cpp:45-127 | for at least one byte: fails exactly when too few bytes are free in all or no handle is free; every live handle keeps its bytes even through compaction; without compaction nothing moves and the gap is a best fit |
| `MemoryPool.MemPool.AllocNothing` | Modules/UIPEthernet/utility/MemPool.cpp:45-127 | for 0 bytes: a handle is given out unless all are taken, and then no layout describes the list any more |
| `MemoryPool.EmptyBlockBreaksLayout` | Modules/UIPEthernet/utility/MemPool.cpp:113-121 | linking a block of no bytes leaves a list that is not made of exactly the nonzero handles |
| `MemoryPool.MemPool.Collect` | Modules/UIPEthernet/utility/MemPool.cpp:77-96 | compaction closes every gap and keeps every live handle's bytes |
| `MemoryPool.MemPool.Slide` | Modules/UIPEthernet/utility/MemPool.cpp:83-96 | one move of compaction keeps the layout and all contents |
| `MemoryPool.SlideKeepsBytes` | Modules/UIPEthernet/utility/MemPool.cpp:87-93 | the overlapping forward copy of one block leaves the bytes of every handle |
| `MemoryPool.MemPool.MoveBytes` | Modules/UIPEthernet/utility/MemPool.cpp:87-93 | the ascending copy is right although source and target overlap |
| `MemoryPool.MemPool.Search` | Modules/UIPEthernet/utility/MemPool.cpp:51-75 | finds a smallest gap that is large enough, or that none is |
| `MemoryPool.MemPool.Insert` | Modules/UIPEthernet/utility/MemPool.cpp:104-126 | takes the lowest free handle, if any, and links it |
| `MemoryPool.MemPool.FreeBlock` | Modules/UIPEthernet/utility/MemPool.cpp:135-158 | removes exactly one live handle, gives its bytes back, leaves all others; other handles are ignored |
| `MemoryPool.MemPool.ResizeBlock` | Modules/UIPEthernet/utility/MemPool.cpp:166-170 | drops bytes from the front of one block |
| `MemoryPool.MemPool.ResizeBlockTo` | Modules/UIPEthernet/utility/MemPool.cpp:178-182 | cuts a block to a part of it |
| `MemoryPool.MemPool.constructor` | Modules/UIPEthernet/utility/MemPool.cpp:32-37 | the empty pool has a valid layout and all bytes free |
| `MemoryPool.LiveBlocksDisjoint` | Modules/UIPEthernet/utility/MemPool.cpp:45-182 | in a valid layout two live blocks never overlap |
| `MemoryPool.LinkKeepsLayout` | Modules/UIPEthernet/utility/MemPool.cpp:113-120 | linking keeps the list acyclic, sorted, in bounds and made of exactly the nonzero handles |
| `MemoryPool.UnlinkKeepsLayout` | Modules/UIPEthernet/utility/MemPool.cpp:143-152 | so does unlinking |
| `MemoryPool.MemPool.ReadPacket` | Modules/UIPEthernet/utility/Enc28j60Eth.cpp:333-362 | copies the bytes of a block from a position, clipped to the block |
| `MemoryPool.MemPool.WritePacket` | Modules/UIPEthernet/utility/Enc28j60Eth.cpp:370-381 | replaces the bytes of a block from a position, clipped, and no other handle's bytes |
| `SocketBuffers.Recv` | Modules/UIPEthernet/TcpClient.cpp:352-388 | moves the next bytes of the queue to the buffer, in order, without loss or repetition; more than 65535 are asked for only modulo 65536; a stopped connection is asked to go on exactly when a block is given back |
| `SocketBuffers.RecvLoop` | Modules/UIPEthernet/TcpClient.cpp:358-384 | the loop stops with the buffer full or the queue empty, and what it moved plus what waits is what waited |
| `SocketBuffers.EatBlock` | Modules/UIPEthernet/TcpClient.cpp:685-709 | frees the first block and moves the others up; the rest of the stream stays |
| `SocketBuffers.StoreNewData` | Modules/UIPEthernet/TcpClient.cpp:504-531 | appends the data, or changes nothing; no hole appears because a failed allocation fails again; stops exactly when not stored or the last slot is taken |
| `UdpBuffers.UdpSocket.Read` | Modules/UIPEthernet/UdpSocket.cpp:294-309 | gives the next bytes of the datagram, as many as there are of the low 16 bits of the number asked for; no byte lost or given twice |
| `UdpBuffers.UdpSocket.ParsePacket` | Modules/UIPEthernet/UdpSocket.cpp:245-270 | the waiting datagram takes the place of the current one |
| `UdpBuffers.UdpSocket.Arrive` | Modules/UIPEthernet/UdpSocket.cpp:345-365 | a datagram with data is kept exactly when none waits and the pool has room |
| `UdpBuffers.UdpSocket.ArriveEmpty` | Modules/UIPEthernet/UdpSocket.cpp:345-365 | a datagram without data leaves the pool without a valid layout exactly when none waits and a handle is free |
| `AesBlock.BlockInverse` | Modules/AES/AES.cpp:357-383 | for every key schedule and round count aesDecrypt undoes aesEncrypt |
| `AesBlock.SboxInverse` | Modules/AES/AES.cpp:25-93 | the two tables are inverse |
| `AesBlock.MixColumnsInverse` | Modules/AES/AES.cpp:488-518 | invMul undoes mul over the gmul field |
| `AesBlock.ShiftRowsInverse` | Modules/AES/AES.cpp:439-469 | the two row shifts are inverse |
| `AesStandard.SboxIsAffineOfInverse` | Modules/AES/AES.cpp:25-58 | every entry of the table is the affine map of section 5.1.1 of FIPS 197 applied to the inverse in the field |
| `AesStandard.GmulIsSum` | Modules/AES/AES.cpp:471-486 | the loop's product is the sum of the doublings for the bits of the factor |
| `AesStandard.XTimeIsRemainder` | Modules/AES/AES.cpp:471-486 | its doubling is multiplication by x modulo x^8 + x^4 + x^3 + x + 1 |
| `AesStandard.HalvedBits` | Modules/AES/AES.cpp:471-486 | the bits it looks at are those of the factor, from the lowest on |
| `AesStandard.SubBytesEach` | Modules/AES/AES.cpp:427-431 | every byte of the state goes through the table |
| `AesStandard.ShiftRowsMoves` | Modules/AES/AES.cpp:439-453 | row r goes r columns to the left |
| `AesStandard.MixColumnsMultiplies` | Modules/AES/AES.cpp:488-512 | each byte of a column is 2, 3, 1 and 1 times its bytes |
| `AesStandard.KeyBytesAreWord` | Modules/AES/AES.cpp:520-530 | a key word is its four bytes, the first one on top |
| `AesStandard.RoundKeyColumn` | Modules/AES/AES.cpp:520-530 | a round key word is added to the column of its number |
| `AesStandard.RoundConstants` | Modules/AES/AES.cpp:95-99 | the constants are the powers of x in the first byte |
| `AesStandard.TurnedBytes` | Modules/AES/AES.cpp:398-425 | the word at a multiple of nk is turned by one byte, substituted, and its first byte gets the constant |
| `AesStandard.ScheduleIsExpansion` | Modules/AES/AES.cpp:385-404 | any sequence that follows the recurrence of section 5.2 is the program's key schedule, for all three key lengths |
| `AesStandard.EncryptFollowsTrace` | Modules/AES/AES.cpp:357-369 | any states that follow section 5.1 round by round end in what aesEncrypt computes, for every number of rounds |
| `ModeStandard.XorBytesEach` | Modules/AES/AES.cpp:211-216 | the chaining adds byte by byte |
| `ModeStandard.BlocksAreChained` | Modules/AES/AES.cpp:163-260 | for whole blocks each ciphertext block is what section 6.1 or 6.2 of SP 800-38A says |
| `ModeStandard.ShortIsPadded` | Modules/AES/AES.cpp:171-208 | a message shorter than a block is filled up with zeros |
| `ModeStandard.StealingSwaps` | Modules/AES/AES.cpp:228-254 | CBC with a partial block is the chain over the message filled up with zeros, with the last two blocks exchanged and cut |
| `ModeStandard.StealingBorrows` | Modules/AES/AES.cpp:228-254 | ECB with a partial block: it takes the end of the ciphertext block before it, whose beginning stands last |
| `ModeStandard.CutsDoNotShow` | Modules/AES/AES.cpp:163-260 | two calls cut between blocks give the output and the carry vector of one |
| `AesModes.ModeRoundTrip` | Modules/AES/AES.cpp:163-347 | for every length, mode and carry vector, over any invertible block cipher, decryption returns the plaintext |
| `AesModes.CarryAgreement` | Modules/AES/AES.cpp:163-347 | exactly when both sides hold the same carry vector afterwards |
| `AesModes.StreamRoundTrip` | Modules/AES/AES.cpp:163-347 | a stream of messages from one setup comes back if every message but the last keeps the two sides in step, and only then if the messages behind the first have at least one block |
| `AesModes.FullMessagesInStep` | Modules/AES/AES.cpp:163-347 | so it comes back if only the last message takes the stealing path in CBC mode |
| `AesModes.StealingSplitsCarries` | Modules/AES/AES.cpp:228-254 | for every cipher, carry vector and block, all but one of the 256 bytes that can follow leave the two sides with different carry vectors |
| `AesCipher.CipherSplitsCarries` | Modules/AES/AES.cpp:228-254 | the same for AES with every key schedule |
| `AesModes.StealRecovers` | Modules/AES/AES.cpp:228-325 | the stolen bytes and the partial block are both recovered |
| `AesCipher.CipherRoundTrip` | Modules/AES/AES.cpp:163-347 | the round trip for the actual cipher, between two key arrays that agree on the words of the schedule |
| `AesBlock.WordsBehindAreIgnored` | Modules/AES/AES.cpp:355-384 | both block functions look only at the first 4 * (rounds + 1) key words |
| `AesCipher.Exchange` | Modules/AES/AES.cpp:136-347 | two objects set up with the same key of 128, 192 or 256 bits, mode and vector, whatever they held before: one decrypts what the other encrypted, for every length |
| `AesCipher.Aes.EncryptBytes` | Modules/AES/AES.cpp:163-260 | in place or between two buffers, the destination gets the mode's ciphertext, nothing else changes, and the carry vector follows |
| `AesCipher.Aes.DecryptBytes` | Modules/AES/AES.cpp:262-347 | the same for decryption |
| `AesCipher.Aes.AesEncryptInPlace` | Modules/AES/AES.cpp:357-369 | the rounds on the state array compute the block function |
| `AesCipher.Aes.AesDecryptInPlace` | Modules/AES/AES.cpp:371-383 | the inverse rounds compute the inverse function |
| `AesCipher.Aes.ShiftRowsInPlace` | Modules/AES/AES.cpp:439-453 | rotating packed rows shifts the rows |
| `AesCipher.Aes.MixColumnsInPlace` | Modules/AES/AES.cpp:488-512 | each column goes through the matrix |
| `AesCipher.Aes.AddRoundKeyInPlace` | Modules/AES/AES.cpp:520-530 | the packed XOR is the bytewise XOR with the round key |
| `AesCipher.GmulLoop` | Modules/AES/AES.cpp:471-486 | the loop computes the field product |
| `AesCipher.Aes.ExpandKey` | Modules/AES/AES.cpp:385-404 | the key array holds the schedule of section 5.2 of FIPS 197 |
| `AesCipher.Aes.Setup` | Modules/AES/AES.cpp:136-161 | mode, rounds, schedule and carry vector, with zeros for missing key or vector; the key words behind the schedule stay as they were |
| `AesCipher.Aes.Clear` | Modules/AES/AES.cpp:349-355 | key, state and carry vector are zero |
| `Sha256.HashPieces` | Modules/JWT/sha256.c:173-250 | for any way of cutting a message into updates the digest is that of the padded message |
| `Sha256.Context.Update` | Modules/JWT/sha256.c:173-202 | appends the data to the message of the context |
| `Sha256.Context.Finalise` | Modules/JWT/sha256.c:211-250 | the block fold over the padded message, whatever is left in the buffer |
| `Sha256.Context.MarkEnd` | Modules/JWT/sha256.c:216-236 | the length modulo 2^64 and the marker, with the extra block when it is needed |
| `Sha256.Transform` | Modules/JWT/sha256.c:100-141 | the rotating registers compute the compression function of section 6.2.2 of FIPS 180-4 |
| `Sha256.RoundInPlace` | Modules/JWT/sha256.c:89-135 | one round and the rotation are one round of the standard |
| `Sha256.ChIsChoose` | Modules/JWT/sha256.c:80-80 | the short form of Ch is the standard's |
| `Sha256.MajIsMajority` | Modules/JWT/sha256.c:81-81 | the short form of Maj is the standard's |
| `Sha256.Calculate` | Modules/JWT/sha256.c:258-267 | the hash of one buffer |
| `Sha256Standard.RoundConstantsAreCubeRoots` | Modules/JWT/sha256.c:58-71 | the 64 constants are the fractions of the cube roots of the first 64 primes |
| `Sha256Standard.InitialWordsAreSquareRoots` | Modules/JWT/sha256.c:152-164 | the initial words are those of the square roots of the first eight |
| `Sha256Standard.SigmasRotate` | Modules/JWT/sha256.c:82-87 | the four functions are the rotations and shifts of section 4.1.2 of FIPS 180-4 |
| `Sha256Standard.WordsAreBigEndian` | Modules/JWT/sha256.c:35-39 | a loaded word has its first byte on top |
| `Sha256Standard.StoreUndoesLoad` | Modules/JWT/sha256.c:27-39 | a stored word gives the bytes back |
| `Sha256Standard.PaddingIs` | Modules/JWT/sha256.c:216-243 | the padding of section 5.1.1: the message, 0x80, as few zeros as possible, the bit count |
| `Sha256Standard.LengthBytes` | Modules/JWT/sha256.c:41-51 | the eight bytes of the count, the first one counting most |
| `Sha256Standard.CompressFollowsSteps` | Modules/JWT/sha256.c:100-141 | any words and states that follow the steps of section 6.2.2 end in what the compression computes |
| `Sha256Standard.BlocksInOrder` | Modules/JWT/sha256.c:173-202 | the blocks go through the compression in order, from the initial words on |
| `Sha256Standard.DigestOfShort` | Modules/JWT/sha256.c:211-250 | the digest is the eight words in order |
| `Hmac.HmacIs` | Modules/JWT/hmac_sha256.c:31-70 | section 2 of RFC 2104 in its own terms: which pad is inside and which outside, and where the text goes |
| `Hmac.HmacSha256` | Modules/JWT/hmac_sha256.c:31-70 | section 2 of RFC 2104 for every key length, cut to the room given |
| `Hmac.Pads` | Modules/JWT/hmac_sha256.c:45-60 | both pads XORed with the key |
| `Base64Url.AlphabetIs` | Modules/JWT/Base64URL.cpp:23-122 | the alphabet is table 2 of RFC 4648 |
| `Base64Url.GroupsAreBits` | Modules/JWT/Base64URL.cpp:23-122 | the 24 bits of three bytes are the four groups in order, and missing bits at the end are zero |
| `Base64Url.GroupsInOrder` | Modules/JWT/Base64URL.cpp:23-122 | the groups of the bytes 3k to 3k + 2 stand at 4k to 4k + 3 |
| `Base64Url.DecodeEncode` | Modules/JWT/Base64URL.cpp:23-219 | decoding undoes encoding for every byte string |
| `Base64Url.EncodeDecode` | Modules/JWT/Base64URL.cpp:23-219 | encoding undoes decoding exactly when the unused trailing bits are zero |
| `Base64Url.EncodeInto` | Modules/JWT/Base64URL.cpp:23-122 | the backward loop writes the encoding and its terminator and nothing behind it |
| `Base64Url.DecodeLoop` | Modules/JWT/Base64URL.cpp:125-219 | succeeds exactly on alphabet strings of length not 1 modulo 4, with the bytes gathered in the value |
| `Base64Url.EncodeShape` | Modules/JWT/Base64URL.cpp:23-122 | the length of the encoding, and only alphabet characters |
| `Jwt.TokenRoundTrip` | Modules/JWT/CustomJWT.h:222-333 | a token is accepted and gives header and payload back, exactly when the payload is not empty |
| `Jwt.TokenParts` | Modules/JWT/CustomJWT.h:222-264 | a token is header, payload and signature in this order, the signature made of the first two |
| `Jwt.SignatureIsMac` | Modules/JWT/CustomJWT.h:207-213 | the default signature decodes to the code of the text under the secret |
| `Jwt.DecodeSteps` | Modules/JWT/CustomJWT.h:268-333 | the code cuts, compares and decodes as specified, with its four result codes |
| `Jwt.AcceptedIsSigned` | Modules/JWT/CustomJWT.h:276-316 | accepted is exactly what has three parts and carries the signature of the first two |
| `Jwt.Strtok` | Modules/JWT/CustomJWT.h:278-288 | one call of strtok takes one token off the list |
| `Jwt.DefaultIsPlain` | Modules/JWT/CustomJWT.h:207-213 | the default signature is never empty and has no dot |
| `Jwt.BuffersSuffice` | Modules/JWT/CustomJWT.h:180-196 | the allocated sizes are enough for all lengths within the limits |
| `LoRaChain.ChainRoundTrip` | Modules/Gateway/Gateway.cpp:458-474 | the receiver accepts every prepared message, and has the text back exactly when the last encrypted byte does not cut into it and there is room |
| `LoRaChain.PreparedLayout` | Modules/Gateway/Gateway.cpp:458-465 | a prepared message is the encoded ciphertext, the code of it, and the checksum of both, in this order |
| `LoRaChain.PlainTextComesBack` | Modules/Gateway/Gateway.cpp:458-474 | so every text whose last encrypted byte is not 1 to 16 comes back |
| `LoRaChain.LeftoverCutsText` | Modules/MessageHandler/DecrypterBase64/DecrypterBase64.cpp:72-75 | a buffer whose text does not come back, through the whole chain with any library |
| `LoRaChain.DecryptPrefix` | Modules/MessageHandler/DecrypterBase64/DecrypterBase64.cpp:69-69 | decrypting past the ciphertext leaves its blocks as they are |
| `LoRaChain.Unframe` | Modules/MessageHandler/AuthenticationVerifier/AuthenticationVerifier.cpp:55-100 | checksum and code come off again, despite rewritten NUL bytes and hexadecimal framing |
| `LoRaChain.ScanHex` | Modules/MessageHandler/ChecksumVerifier/ChecksumVerifier.cpp:62-65 | sscanf with %8X, with its white space, sign, prefix and longest run of digits, gives the printed checksum back |
| `LoRaHandlers.PrepareLoRaMessage` | Modules/Gateway/Gateway.cpp:458-465 | the three handlers on the buffer do what the chain does on values |
| `LoRaHandlers.ProcessLoRaMessage` | Modules/Gateway/Gateway.cpp:467-474 | so do the three on the way in, with each refusal |
| `LoRaHandlers.EncryptMessage` | Modules/MessageHandler/EncrypterBase64/EncrypterBase64.cpp:57-77 | the buffer's first blocks encrypted, encoded, and copied back |
| `LoRaHandlers.DecryptMessage` | Modules/MessageHandler/DecrypterBase64/DecrypterBase64.cpp:55-79 | decode, decrypt the whole room, strip, clip, terminate |
| `LoRaHandlers.AddCode` | Modules/MessageHandler/AuthenticationGenerator/AuthenticationGenerator.cpp:45-74 | the code, without NUL, behind the text |
| `LoRaHandlers.VerifyCode` | Modules/MessageHandler/AuthenticationVerifier/AuthenticationVerifier.cpp:55-100 | cuts the code off and accepts exactly the right one |
| `LoRaHandlers.AddChecksum` | Modules/MessageHandler/ChecksumGenerator/ChecksumGenerator.cpp:55-87 | the checksum behind the text, unless the total reaches 4000 |
| `LoRaHandlers.VerifyChecksum` | Modules/MessageHandler/ChecksumVerifier/ChecksumVerifier.cpp:56-90 | refuses short packets and wrong checksums, and cuts the right one off |
| `LoRaHandlers.AesInverts` | Modules/MessageHandler/EncrypterBase64/EncrypterBase64.cpp:57-59 | with the AES key schedule the cipher assumption of the chain is a theorem |
| `Checksum.Sum` | Modules/UIPEthernet/UipEthernet.cpp:568-597 | the word sum modulo 65535, zero only if seed and words are zero |
| `Checksum.SumByPlaces` | Modules/UIPEthernet/UipEthernet.cpp:568-597 | bytes at even places count 256 times, those at odd places once, and an odd buffer sums like one with a zero behind it |
| `Checksum.SumInChip` | Modules/UIPEthernet/utility/Enc28j60Eth.cpp:691-727 | the same sum over the controller's memory, for every length but 0 |
| `Checksum.EmptySumNeverEnds` | Modules/UIPEthernet/utility/Enc28j60Eth.cpp:697-714 | with length 0 the 16-bit counter never reaches the bound |
| `Checksum.SplitSum` | Modules/UIPEthernet/UipEthernet.cpp:615-682 | header in RAM and rest in the controller give the sum over one buffer |
| `Checksum.BuiltPacketPasses` | Modules/UIPEthernet/utility/uip.c:2007-2025 | every packet built passes the stack's own input check |
| `Checksum.FieldIs` | Modules/UIPEthernet/utility/uip.c:2007-2025 | the field is the complement of the sum, and in UDP never zero |
| `Checksum.EchoReplyValid` | Modules/UIPEthernet/utility/uip.c:1078-1089 | the edited checksum is right exactly when the request's was |
| `Checksum.StrictEchoReply` | Modules/UIPEthernet/utility/uip.c:1078-1089 | the reply sums to all ones exactly when the request was right and was not an empty echo |
| `Checksum.EmptyEchoReply` | Modules/UIPEthernet/utility/uip.c:1078-1089 | every empty echo request is right and its reply sums to 0 |
| `Ip6Text.AddressRoundTrip` | Modules/UIPEthernet/utility/os2_stoip6.c:37-105 | parsing what was printed gives every address back |
| `Ip6Text.PrintedLayout` | Modules/UIPEthernet/utility/os2_ip6tos.c:32-104 | the groups with colons between them, and two colons in the place of the run |
| `Ip6Text.DigitsAre` | Modules/UIPEthernet/utility/os2_ip6tos.c:32-104 | the digits are lower case |
| `Ip6Text.NoLeadingZero` | Modules/UIPEthernet/utility/os2_ip6tos.c:32-104 | no zero stands in front of a group |
| `Ip6Text.Print` | Modules/UIPEthernet/utility/os2_ip6tos.c:32-104 | prints with the chosen run left out, in at most 39 characters |
| `Ip6Text.FindRun` | Modules/UIPEthernet/utility/os2_ip6tos.c:39-69 | the first longest run of at least two zero groups |
| `Ip6Text.ParseSteps` | Modules/UIPEthernet/utility/os2_stoip6.c:37-105 | the loops parse as specified, with every refusal |
| `Ip6Text.ParserReads` | Modules/UIPEthernet/utility/os2_stoip6.c:37-105 | eight fields of one to four digits are read as the groups they stand for |
| `Ip6Text.ParserReadsGap` | Modules/UIPEthernet/utility/os2_stoip6.c:37-105 | fewer fields with two colons behind some of them, with zeros in that place |
| `Ip6Text.ParserReadsFront` | Modules/UIPEthernet/utility/os2_stoip6.c:37-105 | the same with two colons in front of at most seven fields |
| `Ip6Text.ReadHex` | Modules/UIPEthernet/utility/os2_stoip6.c:167-184 | the value of a run of digits |
| `Arp.Cache.Update` | Modules/UIPEthernet/utility/uip_arp.c:147-204 | the binding goes into the slot the table before the call determines, and is found afterwards exactly when no entry in front of it hides it, as for every usable address; at most one other usable address is forgotten and only from a full table; no usable address stands twice |
| `Arp.Cache.FindSlot` | Modules/UIPEthernet/utility/uip_arp.c:153-197 | the three loops choose the recognised entry, else the first unused one, else the first of the largest positive age |
| `Arp.UsableShows` | Modules/UIPEthernet/utility/uip_arp.c:153-170 | for an address with both halves nonzero no entry hides the new one |
| `Arp.Cache.Expire` | Modules/UIPEthernet/utility/uip_arp.c:134-144 | exactly the entries that are too old go |
| `Arp.Cache.constructor` | Modules/UIPEthernet/utility/uip_arp.c:117-121 | an empty table finds nothing |
| `Arp.AnnounceTwice` | Modules/UIPEthernet/utility/uip_arp.c:147-204 | two announcements of an address with a zero half to an empty cache, after which the lookup gives the first |
| `Arp.LookupAt` | Modules/UIPEthernet/utility/uip_arp.c:373-378 | the lookup finds the first entry for an address |

## Left out

- Urgent data in TCP: with UIP_URGDATA 0 the skipped bytes are not counted in rcv_nxt, so segments with URG are not part of the model.
- The PSH and window fields of segments are filled in where two connections talk (TcpConversation.Sent) and are not part of what a step emits.
- RTT estimation, TCP options and IP reassembly: the estimator's result and the MSS option's value are inputs; reassembly is compiled out.
- The decisions of uipclient_appcall and the queue of blocks to send are modelled on values; the handle arrays over the pool are modelled in place for the receive side only.
- Release of buffers after a reset: the callback has no branch for UIP_ABORT, and a client left on a slot is inherited by its next connection.
- TcpBlocks.WritePass: models one pass between two calls of the stack, not the endless retries around it.
- TcpSending.StopAndWait: covers runs in which no write leaves a gap; what the unwritten bytes of such a block are is not modelled.
- TcpReceiving.EndToEnd: the room is predicted for a run in which no other socket uses the pool; how others change what is free is not modelled.
- TcpSending.SentIsTruthful: is about segments with data; that a FIN stands at the end of what was written is not claimed, because the peer's FIN may close with blocks unsent.
- TcpSending.DataCarriesFlight: when the copy of a block cannot be allocated, what leaves instead is not modelled.
- The overlay of uip_userdata_closed_t on uip_userdata_t, which writes lport over another field.
- MemoryPool.MemPool.AllocBlock: takes at least one byte; 0 bytes is the separate AllocNothing, after which the pool is not modelled. Start, length and number of handles of the pool are parameters.
- MemoryPool.MemPool.ResizeBlock: excludes a position at or past the size, which no caller in the model passes, since size 0 marks a free handle.
- MemoryPool.MemPool.ResizeBlockTo: likewise excludes size 0 and windows past the block.
- UdpBuffers.UdpSocket.Arrive: takes a datagram with data; one without is the separate ArriveEmpty.
- The sending half of UdpSocket (beginPacket, write, endPacket): single calls of the pool, which would only add easy members.
- Receive-ring address wrap, SPI and DMA registers, the radio driver: hardware without a visible contract.
- LoRaHandlers.VerifyCode: excludes texts shorter than 32 bytes, where the code reads before its buffer.
- LoRaHandlers.DecryptMessage: excludes an empty ciphertext, where the code reads before its buffer, and one larger than the scratch buffer.
- LoRaHandlers.ProcessLoRaMessage: excludes texts on which the code reads outside its buffers (fewer than 32 bytes before the checksum, an empty ciphertext, one larger than the scratch buffer), and base64 text the library refuses.
- LoRaChain.ScanHex: a prefix 0x without a digit behind it counts as no number, as the C standard says; libraries differ there.
- Base64, HMAC and CRC of the LoRa chain are any functions with the stated properties; mbedtls and MbedCRC are not part of this model.
- Scratch-array sizes in decodeJWT, malloc and free, floating-point rounding in allocateJWTMemory: strings are values and sizes are exact fractions.
- Checksum.SumInChip: excludes length 0, for which the loop does not end (EmptySumNeverEnds).
- That the evicted ARP entry is the oldest in time is not claimed, because ages are differences of bytes from a clock that wraps; it is the one whose difference is largest.
- stoip6_prefix, ip6_prefix_tos and IPv4-in-IPv6 text.
- DHCP and DNS clients, cellular, GNSS and power state classes, AT line reader, debug output, watchdog: easy or wall-clock bound.
