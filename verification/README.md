# Verification of netinet

A Dafny model of the hardest parts of a BSD 4.4 derived TCP/IP stack (`netinet/`), with proofs. The
source changes linked nodes, control blocks, queues and buffers in place; so does the model, in
classes whose methods follow the source branch by branch. Each class has ghost fields that say what
its links, numbers or queues stand for (a tree, offsets in a byte stream, the packets seen so far),
and every method is proved against functions and predicates on those values.

| part | files | what is proved |
|---|---|---|
| routing tree | `RadixTree`, `RadixHeap`, `RadixEdit`, `RadixStep`, `RadixGrow`, `RadixInsert`, `RadixDelete`, `RadixSlots`, `RadixHead`, `RadixMask`, `RadixOrder`, `RadixWalk` | lookup against a linear search, insertion, deletion and the walk on linked nodes |
| header compression | `SlHeader`, `SlSlots`, `SlRuns`, `SlWire`, `SlCompress` | when a packet goes compressed and as which bytes, both ends against step functions, and any run of packets over a lossless link |
| TCP receiver | `TcpSeq`, `TcpPieces`, `TcpReceive` | what any run of segments leaves in the queue and hands to the user |
| TCP sender | `TcpRtt`, `TcpSend`, `TcpStalls`, `TcpWindow` | one invariant kept by every step from the acknowledged SYN on, and when data wait for a timer |
| TCP, both ends | `TcpLink`, `TcpRun` | a sender and a receiver over a network that loses, repeats and reorders |
| IP fragments | `Pieces`, `IpPieces`, `IpFragment` | fragmentation and reassembly, from one end to the other |
| checksum | `Words`, `InCksum` | the sum over any chain of buffers |

## Where the source does not do what one expects

Each of these is proved, with an input and with the exact condition.

- `rn_match` of the all-ones key stops at the bare root leaf, although shorter routes (a default
  route, say) match. This is the only lookup that differs from a linear search: `Match` gives the
  linear answer if and only if the key is not `ShadowedByOnes`. `DefaultMissed` is a run of it.
- `rn_walktree` stops when it meets the root leaf at the end, so it never shows the route behind that
  leaf, the one whose key and mask are all ones. It shows every other route exactly once (`WalkTree`);
  `LastMissed` is a run in which the only route of a table is not shown.
- `rn_addroute` refuses a route if and only if one of its key and mask is there (`AddRoute`), and in
  every table the two root leaves count as host routes for the all-zero and the all-one key, so these
  can never be entered (`RootKeysTaken`).
- `rn_delete` without a mask takes a net route if and only if the key has no host route
  (`NoMaskTakesNet`); `NetTaken` is a run of it.
- The decompressor's two special cases leave the URG flag as it was saved. A compressed packet comes
  out as it went in if and only if it is `Faithful` to the saved header, and one clause of that is
  that a special case is not used while the saved header has URG (`OnePacket`, `UrgentFlagStays`).
- `TCP_REASS` looks at the FIN flag in the segment, not at the local copy that the window trimming
  has cleared. A FIN beyond the window is therefore taken for one at the edge of the window, and may
  be reported when the bytes up to there have come in; `EarlyFinIff` says exactly when, `EarlyFin` is a
  run of two segments that ends the connection after 10 of 20 bytes. The acknowledgement then covers a
  byte that has not come in (`EarlyAck`).
- A FIN is lost when its segment brings no new byte, or when a queued piece that carries it is covered
  by a longer segment without it: exactly `LosesFin` (`AcceptKeeps`, `FinDropped`, `FinCovered`).
- When the handshake completes, the answer of `tcp_reass` is ignored: of the FINs that wait in the queue
  those marked at or before the new `rcv_nxt` are dropped, and only those (`Establish`). `HandshakeFin`
  is a run in which the whole stream has come and its end is not noticed.
- `tcp_output` may leave data in the send buffer with neither timer running: if and only if nothing may
  be sent into the window, the persist timer is off, the retransmit timer is off too or gets cancelled
  because `snd_nxt` is beyond the closed window, and an acknowledgement or a window update is due, for
  which a segment goes out before the persist timer is thought of (`Stalls`, in `Output`).
  `LeftWithoutTimer` is a run of it.
- The persist timer sends the first byte that is not acknowledged if and only if `snd_nxt` stands there
  (`PersistTimeout`). After a third duplicate acknowledgement with the window closed it does not, and no
  probe is sent: `MissedProbe` is a run of it.

## Model

| member | source | states |
|---|---|---|
| RadixHeads.RadixHead.constructor | netinet/radix.c:872-903 | the head rn_inithead sets up is a valid tree that holds only the two root leaves |
| RadixHeads.RadixHead.Search | netinet/radix.c:105-124 | ends at a leaf of the tree whose path turns at every node as the key's bit says |
| RadixHeads.RadixHead.SearchZeroMask | netinet/radix.c:126-141 | always to the left and then along the chain: finds the one entry with the empty mask |
| RadixHeads.RadixHead.Match | netinet/radix.c:212-312 | the answer is that of a linear longest-prefix search over all routes if and only if the key is not ShadowedByOnes |
| RadixHeads.SameAtLeaf | netinet/radix.c:236-256 | when the key agrees with the leaf under the leaf's mask, the head of the chain (the next entry after a root leaf) is the linear answer, but for ShadowedByOnes |
| RadixHeads.ChainCovered | netinet/radix.c:257-276 | the first entry of the chain whose index is at most the first differing bit is the linear answer; if there is none, no entry of the chain matches |
| RadixTree.LiftedIsBest | netinet/radix.c:277-310 | on the way up, the first annotation whose index is at most the first differing bit belongs to the most specific matching route |
| RadixTree.NothingMatches | netinet/radix.c:277-312 | if no annotation on the way up has such an index, no route outside the chain matches |
| RadixHeads.DefaultMissed | netinet/radix.c:212-312 | a run: on a fresh head with only the empty-mask route added, Match of the all-ones key does not give the linear answer |
| RadixHeads.OnesMissDefault | netinet/radix.c:212-312 | the set of routes of that run shadows the all-ones key |
| RadixMasks.Refines | netinet/radix.c:143-168 | for contiguous masks rn_refines says that the first has more ones |
| RadixMasks.LexoBetter | netinet/radix.c:478-491 | for contiguous masks rn_lexobetter says the same |
| RadixMasks.Precedes | netinet/radix.c:549-560 | for contiguous masks, the empty one included, the three comparisons of rn_addroute together order by the number of ones |
| RadixMasks.IndexMask | netinet/radix.c:458-474 | a trimmed mask is flagged normal if and only if it is some number of ones behind the skipped bytes, and its index gives that number |
| RadixInserts.FindDup | netinet/radix.c:549-560 | reports a duplicate if and only if the mask is in the chain; otherwise gives the one place that keeps the chain from most to least specific |
| RadixGrowth.CutOk | netinet/radix.c:360-402 | the subtree rn_insert splices the new node above holds exactly the keys that agree with the new key before bit d and differ there |
| RadixGrowth.NewLeafOk | netinet/radix.c:340-402 | with a new key and its lifted annotation the tree is in order again and has exactly one item more; the list that takes the annotation had none of that index, so the "Non-unique normal route" branch is not reached |
| RadixGrowth.DupLeafOk | netinet/radix.c:549-667 | the same for another mask of a key in the tree |
| RadixTree.PathAdd | netinet/radix.c:634-667 | lifting a new route's annotation to the highest node that may carry it keeps every list on the path exactly the masks it must hold |
| RadixTree.Split | netinet/radix.c:601-633 | the annotations a spliced-in node takes over from below and those that stay are exactly the ones whose index is at most, and above, its bit |
| RadixHeads.RadixHead.AddRoute | netinet/radix.c:517-667 | enters exactly the one route and keeps the linked tree valid; refuses if and only if a route of that key and mask is there, and then changes nothing |
| RadixHeads.RootKeysTaken | netinet/radix.c:517-667 | a host route for either root key always counts as there already |
| RadixGrowth.AnnotationThere | netinet/radix.c:704-738 | the list rn_delete searches holds the deleted route's annotation, so "couldn't find our annotation" is not reached |
| RadixTree.PathDrop | netinet/radix.c:704-738 | taking the annotation out leaves every list on the path exactly the masks it must hold |
| RadixTree.Merge | netinet/radix.c:781-812 | when a node goes, handing its annotations to the other child leaves a subtree in order, so "Orphaned Mask" is not reached |
| RadixGrowth.CutLeafOk | netinet/radix.c:741-768 | taking one of several entries out of a chain leaves the tree in order with exactly that item gone |
| RadixGrowth.LastLeafOk | netinet/radix.c:769-812 | taking out the only entry of a leaf and the node above it leaves the tree in order with exactly that item gone |
| RadixEdits.CutAfter | netinet/radix.c:752-768 | unlinking an entry behind another relinks its neighbours so that the chain without it is linked in full |
| RadixHeads.RadixHead.Eliminate | netinet/radix.c:741-831 | the route and its pair of nodes leave the tree, also when its internal node was in use and had to move to another slot |
| RadixHeads.RadixHead.DeleteRoute | netinet/radix.c:669-831 | takes out exactly the route rn_delete is to take, or none if there is none; nothing in the tree refers to the two nodes it returns, and both are inactive |
| RadixHeads.NoMaskTakesNet | netinet/radix.c:669-703 | what goes when rn_delete gets no mask is a net route if and only if the key has no host route |
| RadixHeads.NetTaken | netinet/radix.c:669-703 | a run: the only route of a key, with a mask of one bit, goes without its mask being named |
| RadixOrders.LeavesAscend | netinet/radix.c:62-100 | in every tree in order the leaves from left to right have ascending keys |
| RadixWalks.NextLeaf | netinet/radix.c:850-857 | up from a right child, over to the right and down to the left is the leaf that comes next |
| RadixWalks.WalkChain | netinet/radix.c:858-863 | every route of a key is shown once, most specific first, and those the visitor deletes are gone, no others |
| RadixWalks.HeadHere | netinet/radix.c:846-868 | the head of a leaf is a root leaf, where the walk ends, just when its key is all ones |
| RadixWalks.WalkTree | netinet/radix.c:833-870 | the walk ends; it shows every non-root route whose key is not all ones exactly once, by ascending keys and descending masks, and what is left is the table without the routes the visitor deleted |
| RadixWalks.LastMissed | netinet/radix.c:833-870 | a run: the only route of a table, for the all-ones key and mask, is not shown and stays |
| SlHeaders.IpBytesBack | netinet/sl_compress.c:503-512 | the layout of the header: every field is read back from its bytes (section 3.1 of RFC 791) |
| SlHeaders.HeaderSum | netinet/sl_compress.c:505-510 | the loop over the header's words and the two folds give the complement of the end-around sum of its bytes |
| SlHeaders.IpSumVerifies | netinet/sl_compress.c:503-512 | with the recomputed checksum the bytes of the IP header have the end-around sum 0xffff |
| SlHeaders.MaskRoundTrip | netinet/sl_compress.c:330-352 | the change byte is read back as the mask it was made from |
| SlHeaders.TakeEncZ | netinet/sl_compress.c:236-265 | a number written by ENCODEZ is read back, and the bytes behind it are untouched |
| SlHeaders.FieldsBack | netinet/sl_compress.c:457-475 | the decoder reads every changed field back from the encoder's bytes |
| SlHeaders.SpecialBack | netinet/sl_compress.c:445-456 | the two special masks restore the sequence and acknowledgement numbers they stand for |
| SlHeaders.DecodeEncode | netinet/sl_compress.c:223-352 | decoding what was encoded against a saved header gives the new header but for its checksum, the reserved bits and, after a special case, URG |
| SlCompressors.PutDelta | netinet/sl_compress.c:223-329 | the header goes compressed if and only if the encoding function allows it, in at most 15 bytes, and the bytes are its bytes |
| SlWires.EncodeIff | netinet/sl_compress.c:206-291 | it allows it if and only if the fields say so: nothing changed that seldom does, the sequence numbers moved on by at most 0xffff, something did change or data follow an acknowledgement, and no special mask comes about |
| SlWires.HeadIs | netinet/sl_compress.c:311-351 | what then stands before the data, byte by byte, from the two headers |
| SlWires.HeadShort | netinet/sl_compress.c:325-333 | that is between 3 and 16 bytes |
| SlWires.OnlySlot | netinet/sl_compress.c:151-204 | if a slot in use holds the packet's connection, the search finds it |
| SlSlots.SlotsStay | netinet/sl_compress.c:151-204 | no two slots in use hold the same connection and they come first in the order; a packet of a new connection takes the slot that is last in the order |
| SlRuns.OrderStays | netinet/sl_compress.c:151-204 | the order stays that of the last use, the most recent first |
| SlCompressors.Compressor.constructor | netinet/sl_compress.c:77-105 | a ring through all slots, none in use |
| SlCompressors.Compressor.FindSlot | netinet/sl_compress.c:162-204 | the walk along cs_next stops at the slot the search function gives, with its predecessor |
| SlCompressors.Compressor.Promote | netinet/sl_compress.c:183-204 | relinking a slot behind last_cs moves it to the front of the ring and leaves the rest in order |
| SlCompressors.Compressor.CompressTcp | netinet/sl_compress.c:116-365 | for every packet: passed on as it is if and only if it is Untouched; else compressed if and only if a slot in use has its connection and MayShrink holds, as Head says, and sent in full with the slot number otherwise; the ring, the saved headers and the frame are those of the step function, and the slot used becomes the most recent |
| SlCompressors.Decompressor.UncompressTcp | netinet/sl_compress.c:376-517 | the saved headers, last_recv, the toss flag and the packet are those of the step function, bad frames included; the bytes of the IP header made from a compressed frame have the end-around sum 0xffff; after a failure nothing comes out until a frame names its slot |
| SlRuns.OnePacket | netinet/sl_compress.c:116-517 | over a synchronised link a packet comes out as it went in if and only if it goes through (bypassed, uncompressed or Faithful), and then the ends stay synchronised |
| SlRuns.UrgentFlagStays | netinet/sl_compress.c:445-456 | a concrete pair of packets of which the second comes out with URG set |
| SlRuns.LosslessRun | netinet/sl_compress.c:116-517 | from any synchronised state, every well-formed packet of a run comes out as it went in, and the ends agree on every slot |
| SlRuns.LosslessLink | netinet/sl_compress.c:77-517 | the same from two fresh ends |
| TcpSeq.DiffIs | netinet/tcp_input.c:154-186 | the signed difference of two sequence numbers is that of the offsets when they are less than half the space apart |
| TcpPieces.InsertKeeps | netinet/tcp_input.c:165-218 | insertion keeps the queue sorted and disjoint and adds exactly the bytes of the segment |
| TcpPieces.InsertMarks | netinet/tcp_input.c:165-218 | a FIN is in the queue afterwards if and only if it was or came, and is not lost |
| TcpPieces.ReadyIsGap | netinet/tcp_input.c:220-246 | presentation stops at the first missing byte and leaves what is beyond it |
| TcpPieces.ReadyMarks | netinet/tcp_input.c:220-246 | presentation takes the FINs marked at or before the byte where it stops off the queue and leaves the later ones |
| TcpPieces.AcceptKeeps | netinet/tcp_input.c:146-248 | one segment: the bytes held are the union, rcv_nxt is the first one missing, and a FIN is reported if and only if one is marked there and is not lost |
| TcpPieces.ArriveAllKeeps | netinet/tcp_input.c:146-248 | any order, repetition and overlap of segments: what is taken in is the stream up to the first byte that was in none of them |
| TcpPieces.HonestFin | netinet/tcp_input.c:220-246 | if every FIN taken in marks the end of the stream, one is reported only with the whole stream |
| TcpPieces.EarlyFinIff | netinet/tcp_input.c:128-143 | a FIN is reported before the end of the stream if and only if one is marked at the first missing byte, before the end, and is not lost |
| TcpPieces.EarlyFinReported | netinet/tcp_input.c:881-916 | a concrete queue and segment for which it is |
| TcpPieces.FinDropped | netinet/tcp_input.c:172-187 | a concrete segment whose FIN is lost because its bytes are there already |
| TcpPieces.FinCovered | netinet/tcp_input.c:197-212 | a concrete queue whose FIN is lost under a longer segment |
| TcpReceivers.Enqueue | netinet/tcp_input.c:165-218 | the list of segments becomes the one the insertion function gives; the segment is dropped if and only if all its bytes are there |
| TcpReceivers.Receiver.Present | netinet/tcp_input.c:220-246 | takes off exactly the pieces that follow on, appends their bytes unless the socket takes no more, and returns the last one's FIN |
| TcpReceivers.Receiver.Reass | netinet/tcp_input.c:146-248 | tcp_reass is Accept on the queue by offsets; before the handshake is complete it only inserts, but for the FIN of an empty stream |
| TcpReceivers.Receiver.ReassInline | netinet/tcp_input.c:128-143 | the inline case gives the same queue, rcv_nxt, FIN and bytes as tcp_reass |
| TcpReceivers.Receiver.TrimToWindow | netinet/tcp_input.c:787-916 | a segment survives the trimming if and only if some byte of it, or its FIN, is new and in the window, and then what is left is exactly that part |
| TcpReceivers.Receiver.Within | netinet/tcp_input.c:787-916 | a segment with no byte beyond the window comes in whole or brings nothing new |
| TcpReceivers.Receiver.InputText | netinet/tcp_input.c:1296-1330 | for every segment of the stream: exactly its bytes below the edge of the window are there afterwards as well; the connection ends, and the user is told that no more comes, if and only if the FIN is reported; after that, text is ignored; a segment with no byte beyond the window acts as Arrive |
| TcpReceivers.Receiver.InputSynAck | netinet/tcp_input.c:672-750 | the same for text on the SYN that acknowledges ours: the user is told of the end if and only if the FIN is reported |
| TcpReceivers.Receiver.InputSyn | netinet/tcp_input.c:730-750 | text on a SYN that does not waits in the queue; the FIN of a peer that sends no text at all is reported at once, and the user told |
| TcpReceivers.Receiver.Establish | netinet/tcp_input.c:996-1000 | waiting text goes to the user when the handshake completes; of the waiting FINs exactly those at or before the new rcv_nxt are dropped |
| TcpReceivers.HandshakeFin | netinet/tcp_input.c:996-1000 | a run: stream and FIN come on the SYN, the user gets the stream, and the connection stays established |
| TcpReceivers.Receiver.ShutRead | netinet/tcp_input.c:238-241 | when the user reads no more, only the claim that so_rcv gets everything is given up |
| TcpReceivers.Receiver.Delivered | netinet/tcp_input.c:146-248 | on every run: byte rcv_nxt is the first that has not come within the window, so_rcv has got exactly the stream before it, and the FIN was reported early only if one came cut off by the window there |
| TcpReceivers.EarlyFin | netinet/tcp_input.c:128-143 | a run of two segments from a fresh connection that ends it after 10 of 20 bytes |
| TcpRtt.MeasureBounded | netinet/tcp_input.c:1531-1575 | with samples of 1 to m ticks, the estimates after a sample are at most 8 m and 5 m, whatever the variance was before the first |
| TcpRtt.RunBounded | netinet/tcp_input.c:1531-1575 | so over any mix of samples and timeouts from the first sample on, which for m up to 4095 is no 16-bit overflow |
| TcpRtt.IntervalBounded | netinet/tcp_input.c:1576-1578 | the interval set after a sample lies between its minimum and the larger of that and 5 m |
| TcpRtt.FirstSample | netinet/tcp_input.c:1565-1573 | the first sample sets the interval to three times itself |
| TcpRtt.TowardsSample | netinet/tcp_input.c:1539-1549 | a sample moves the smoothed time an eighth of the way towards it, never past it |
| TcpRtt.TowardsDeviation | netinet/tcp_input.c:1560-1564 | and the deviation a quarter of the way towards what it has been off |
| TcpRtt.BackoffGrows | netinet/tcp_timer.c:232-235 | from one timeout to the next the interval never falls, at most doubles, and does double for the first six within its limits |
| TcpRtt.ClobberKeeps | netinet/tcp_timer.c:244-248 | giving up the estimate leaves the interval what it was |
| TcpRtt.PersistGrows | netinet/tcp_output.c:694-711 | nor does the interval between probes fall from one to the next, and it at most doubles |
| TcpSenders.Sender.constructor | netinet/tcp_input.c:988-1001 | the state with our SYN acknowledged, the window on it advertised and nothing written is valid |
| TcpSenders.Sender.WantedIs | netinet/tcp_output.c:187-249 | the tests on sequence numbers are the reasons by offsets: data that are Due, a FIN, an acknowledgement, or news of the receive window |
| TcpSenders.Sender.Decide | netinet/tcp_output.c:120-345 | a segment is to be sent if and only if there is such a reason; how long it is, whether the FIN goes with it and whether another follows; if nothing is sent while data wait, a timer runs |
| TcpSenders.Sender.SetPersist | netinet/tcp_output.c:694-711 | the panic for a running retransmit timer is not reached, the timer gets its interval, and t_rxtshift stays inside tcp_backoff |
| TcpSenders.Sender.StepBack | netinet/tcp_output.c:440-442 | a FIN that is sent again gets the number right behind the last byte |
| TcpSenders.Sender.OfferWindow | netinet/tcp_output.c:466-476 | offers all the space there is, but nothing of a small one, and never an edge to the left of the one recorded in rcv_adv |
| TcpSenders.Sender.Build | netinet/tcp_output.c:383-461 | the segment carries what stands in the user's stream at its number, nothing acknowledged, and a FIN only where the stream ends; without either its number is snd_max, or snd_nxt while persisting |
| TcpSenders.Sender.Account | netinet/tcp_output.c:502-548 | snd_nxt, snd_max and the FIN flag move by what was sent and keep the invariant; what was sent is covered by a timer; a probe leaves snd_nxt where it is |
| TcpSenders.Sender.Advertise | netinet/tcp_output.c:686-688 | rcv_adv becomes the largest edge advertised so far |
| TcpSenders.Sender.Output | netinet/tcp_output.c:91-693 | segments go out if and only if the state before was Due; the invariant holds, every segment carries its part of the stream, all but the last are full, none goes beyond the window; unless ip_output fails, less than a segment, less than half the largest window and nothing sent before is left of what the window allows, nothing at all if the connection was idle or TF_NODELAY is set, and the peer knows the receive window but for less than two segments; data are left without a timer if and only if the state before was Stalls; what is Pressing at snd_una goes out first |
| TcpSenders.Sender.OpenWindow | netinet/tcp_input.c:1119-1133 | the congestion window grows by a segment up to snd_ssthresh and by maxseg * maxseg / cwnd beyond |
| TcpSenders.Sender.OnePerWindow | netinet/tcp_input.c:1119-1133 | beyond it, the acknowledgements of one window of full segments add no more than one segment |
| TcpSenders.Sender.HalfIs | netinet/tcp_input.c:1052-1058 | snd_ssthresh becomes half of the window in use in whole segments, or two segments |
| TcpSenders.Sender.AckPlace | netinet/tcp_input.c:1086-1140 | an acknowledgement between snd_una and snd_max stands for an offset there, and one beyond the buffer for our FIN, so sbdrop is in range |
| TcpSenders.Sender.NewAck | netinet/tcp_input.c:1095-1149 | exactly the acknowledged bytes leave the buffer, snd_nxt is not left behind, the congestion window opens, the estimates take the sample if the timed segment is acknowledged, and the state changes if and only if our FIN is |
| TcpSenders.Sender.FastRetransmit | netinet/tcp_input.c:1050-1068 | the third duplicate acknowledgement sends a segment from snd_una on, unless the window is closed, when the persist timer is set; snd_ssthresh is halved, snd_cwnd follows, and snd_nxt is not left behind |
| TcpSenders.Sender.OldAck | netinet/tcp_input.c:1023-1076 | an acknowledgement of nothing new keeps the invariant; only the third duplicate in a row, and those after it, make the sender send |
| TcpSenders.Sender.Acknowledge | netinet/tcp_input.c:1012-1207 | for every acknowledgement number: the buffer loses exactly what it newly acknowledges, and nothing otherwise; an inflated congestion window is retracted before it opens; the state follows our FIN; a number beyond snd_max is answered |
| TcpSenders.Sender.PredictedAck | netinet/tcp_input.c:486-535 | header prediction drops exactly what is acknowledged, and sbdrop is in range |
| TcpSenders.Sender.RexmtTimeout | netinet/tcp_timer.c:218-284 | keeps the invariant, backs off to the next interval, goes back to slow start and sends a segment from snd_una on if the window is open, or gives up just when t_rxtshift is at its maximum |
| TcpSenders.Sender.PersistTimeout | netinet/tcp_timer.c:286-313 | keeps the invariant; sends data from snd_una on if and only if snd_nxt stands there; gives up just when the peer has been silent too long |
| TcpStalls.LeftWithoutTimer | netinet/tcp_output.c:218-282 | a run: a byte written while the window is closed and a window update is due is left with neither timer running |
| TcpStalls.MissedProbe | netinet/tcp_timer.c:289-313 | a run: three duplicates with the window closed, and the persist timer then sends no probe |
| TcpSenders.Sender.SlowTick | netinet/tcp_timer.c:136-155 | a tick of both timers keeps the invariant; they are never both set |
| TcpSenders.Sender.ReceiveWindow | netinet/tcp_input.c:584-590 | the window used for trimming reaches at least to the edge that was advertised |
| TcpSenders.Sender.UpdateWindow | netinet/tcp_input.c:1214-1234 | a window takes effect if and only if its segment is newer; max_sndwnd follows, and the invariant holds |
| TcpWindows.NewerIsLater | netinet/tcp_input.c:1219-1222 | on numbers less than half the space apart, the test is the order of the places, then of the acknowledgements, then of the windows |
| TcpWindows.AnyOrder | netinet/tcp_input.c:1214-1234 | the last of any segments in that order does not depend on how they come in, or how often |
| TcpWindows.TakeWindows | netinet/tcp_input.c:1214-1234 | over any run of segments the window in force is that of the last one in that order |
| TcpSenders.Sender.Append | netinet/tcp_usrreq.c:291-294 | what the user writes goes behind the stream and the buffer alike |
| TcpSenders.Sender.Close | netinet/tcp_usrreq.c:535-561 | the user's close keeps the invariant; from then on the FIN is due behind the last byte |
| TcpSenders.Sender.PeerFin | netinet/tcp_input.c:1316-1360 | the peer's FIN keeps the invariant in every state |
| TcpLinks.Receivable | netinet/tcp_output.c:383-461 | every segment the sender builds is one the receiver's theorems speak of |
| TcpLinks.AllReceivable | netinet/tcp_output.c:91-693 | so is every segment of one call of tcp_output |
| TcpLinks.AckMeans | netinet/tcp_input.c:1086-1140 | the sender reads an acknowledgement as what the receiver had taken in, so it forgets nothing else |
| TcpLinks.EarlyAck | netinet/tcp_input.c:1321-1330 | after an early FIN the acknowledgement covers one byte that was not taken in |
| TcpLinks.Promised | netinet/tcp_input.c:584-590 | with that window, a segment with no byte beyond the advertised edge comes in whole |
| TcpRuns.Connection.Send | netinet/tcp_output.c:91-693 | what tcp_output adds to the network keeps the invariant of both ends |
| TcpRuns.Connection.Tick | netinet/tcp_timer.c:136-155 | so does what a tick of the timers adds, also when the sender gives up |
| TcpRuns.Connection.DeliverSegment | netinet/tcp_input.c:787-1360 | any segment sent so far may come in at any time, any number of times, and the invariant holds |
| TcpRuns.Connection.Reading | netinet/tcp_input.c:1086-1140 | the sender reads any acknowledgement sent so far as what had been taken in then |
| TcpRuns.Connection.DeliverAck | netinet/tcp_input.c:1012-1207 | so may any acknowledgement, and the invariant holds |
| TcpRuns.Connection.Safe | netinet/tcp_input.c:1012-1360 | on every run so_rcv has got a prefix of what was written, and the sender has forgotten nothing that was not taken in, but for one byte after an early FIN |
| TcpRuns.Connection.Complete | netinet/tcp_input.c:1151-1202 | on every run, when our FIN is acknowledged the far end has taken in the whole stream and been told of its end |
| IpFragments.CopiedShort | netinet/ip_output.c:505-541 | the options that go into every fragment are never longer than all of them, fill whole words and can be parsed |
| IpFragments.OptCopy | netinet/ip_output.c:505-541 | ip_optcopy copies exactly the options with the copy bit, in order, filled up with EOL |
| IpFragments.SplitJoins | netinet/ip_output.c:519-532 | the options it walks over are what stands before the end of the list |
| IpFragments.SplitLengths | netinet/ip_output.c:521-532 | each is as long as its length byte says, or as there is; a no-operation stands alone |
| IpFragments.KeptAre | netinet/ip_output.c:523-536 | those copied are the no-operations and the ones with the copy bit, as often as they were there |
| IpFragments.Output | netinet/ip_output.c:345-428 | succeeds if and only if the datagram fits or may be split; one that fits goes as it is; otherwise the fragments tile the data, all but the last as many whole units of eight bytes as fit beside the original header, and no more of them than that takes; the first has all options and the others the copied ones |
| IpPieces.InsertKeeps | netinet/ip_input.c:511-556 | insertion keeps the list sorted and disjoint and adds exactly the fragment's bytes |
| IpPieces.CompleteIff | netinet/ip_input.c:560-573 | the check succeeds if and only if every byte of the datagram is there |
| IpPieces.CompleteWhenAllThere | netinet/ip_input.c:474-611 | fragments in any order, with repeats and overlaps: complete if and only if they hold every byte between them |
| IpFragments.FragQueue.InsertFrag | netinet/ip_input.c:511-556 | the list becomes the one the insertion function gives; the fragment is dropped if and only if it brings nothing new |
| IpFragments.FragQueue.ReAssemble | netinet/ip_input.c:474-611 | returns the payload if and only if with this fragment every byte has come in, and then the list is empty |
| IpFragments.TiledCut | netinet/ip_output.c:357-428 | what is fragmented again on the way is cut from the same payload and holds the same bytes |
| IpFragments.ArrivesWhole | netinet/ip_output.c:357-428 | once every piece of a datagram has come in, after any number of further splits, every byte is there |
| IpFragments.Deliver | netinet/ip_input.c:396-450 | for any sequence of datagrams cut from one payload: nothing for every proper prefix, the payload exactly at the datagram that supplies the last missing byte |
| IpFragments.EndToEnd | netinet/ip_input.c:396-611 | from the sender to the far end: whatever the fragments meet on the way, only the original payload is handed on, and it is once each piece has arrived |
| InCksums.ReduceIs | netinet/in_cksum.c:60-61 | REDUCE of a 32-bit number is its end-around sum |
| InCksums.Unrolled | netinet/in_cksum.c:116-132 | the unrolled loops add exactly the words they pass |
| InCksums.AddOdd | netinet/in_cksum.c:105-149 | a buffer at an odd address is added byte-swapped with the same end-around sum |
| InCksums.AddMbuf | netinet/in_cksum.c:82-151 | one buffer after an even or odd number of bytes: the accumulator stands for the sum of all bytes so far and stays below 2^32 |
| InCksums.InCksum | netinet/in_cksum.c:60-163 | for any chain, split, alignment and empty buffers: the complement of the end-around sum of the first bytes |
| InCksums.ChecksumVerifies | netinet/in_cksum.c:60-163 | a packet whose checksum field holds the complement of the sum over the rest has a checksum of zero |

## Left out

- Socket buffers (`uipc_sock2.c`), chains of mbufs (`uipc_mbuf.c`), the PCB hash (`in_pcb.c`) and the
  lock behind splnet and ksleep (`unixLib.c`) are not modelled; buffers are sequences of bytes here.
- Non-contiguous masks in the routing tree; keys have one fixed length, a multiple of eight bits, and
  are counted from rn_off. The storage of masks in a tree of their own is not modelled, only the bytes.
- Allocation failures: every mbuf, node and annotation is there.
- RadixWalks.WalkTree: the visitor reports no error and deletes no route but the one it is shown.
- TcpSenders.Sender.Output: no urgent data, no SYN and no options but their length; the failure of
  ip_output is a free choice; snd_wnd less what is acknowledged may wrap, as in the source.
- TcpSenders.Sender.SlowTick: the keepalive and 2MSL timers are not modelled.
- TcpSenders.Sender.Receive: rcv_nxt moves at most 2^30 beyond the recorded edge in one step.
- The header files that define TCPT_RANGESET, TCP_REXMTVAL and the timer constants (TCPTV_MIN,
  TCPTV_REXMTMAX, TCP_MAXRXTSHIFT) are not part of this model's sources: their 4.4BSD values are used.
- TcpRuns.Connection.DeliverSegment: both ends begin with the handshake complete; what is delivered is not
  so old that its number is taken for another one (less than half the sequence space less one window
  from rcv_nxt for a segment, less than half of it behind snd_una for an acknowledgement).
- TcpWindows.TakeWindows: what acknowledgements in between take from snd_wnd is not part of that run.
- TcpReceivers.Receiver.InputText: segments start and end less than half the sequence space less one
  window from rcv_nxt; urgent data, PAWS and RST are not modelled, nor the flags that decide when an
  acknowledgement is sent. A SYN that is repeated in a later segment is not modelled.
- Listening sockets, the handshake's sending side and the user's close before it is complete.
- SlCompressors.Decompressor.UncompressTcp: a truncated compressed frame and a slot that was never
  filled count as bad frames, where the source reads on; damage on the link is modelled no further.
  ENCODE, DECODE and MAX_STATES are those of appendix A of RFC 1144.
- IpFragments.FragQueue.ReAssemble: one datagram under way; several queues, their timeouts and the
  choice of the queue are not modelled. ip_off is an unsigned 16-bit number.
- IpFragments.OptCopy: option lengths are not zero, as ip_dooptions makes sure on the way in.
- InCksums.InCksum: lengths up to 65535.
- ICMP, IGMP, ARP, multicast, routing sockets, drivers, logging and statistics.
