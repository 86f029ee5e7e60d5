# A verified model of VTL

VTL deploys reliable-transport protocols as pairs of kernel programs, with a user-space receive
path on top of AF_XDP, and ships the parts of libbpf it needs. This project models the code whose
correctness is hardest to see by reading and proves what it is for:

* **Go-Back-N and Selective Repeat, end to end** (`GoBackN.dfy`, `SelectiveRepeat.dfy`, over
  `Wire.dfy`, `Window.dfy`, `Channel.dfy`, `Reassembly.dfy` and `ByteCount.dfy`). Frames are byte strings; the sender
  stamps, saves, waits, scans and resends as the egress programs do; the network loses, reorders and
  corrupts frames as it likes; the receiver checks, accepts and reassembles as the ingress programs
  and `dbr.c` do. What arrives is always a prefix of what was sent, and all of it after a flush
  exactly when the flush left no slot unacknowledged; that happens unless the network spoils every one
  of the transmissions.
* **The flush loops under interference** (`GoBackN.dfy`, `SelectiveRepeat.dfy`,
  `PartialReliability.dfy`). The listener program may record feedback between any two looks of the
  scan. Every scan sees what the slots show at that moment, every frame resent is one of a slot it
  saw lost, and the slots at the start and what the listener hears determine the whole flush.
* **The AF_XDP ring and the frame pool** (`XskRing.dfy`, `FramePool.dfy`), with wrapping 32-bit
  counters, for every interleaving of the two sides, against an ideal queue and an ideal pool.
* **libbpf's hash map** (`HashMap.dfy`, over `Multimap.dfy`, with its laws in `MapLaws.dfy`): linked chains on the heap, in-place
  rehashing and allocation failures, against a multimap, and without APPEND a mathematical map.
* **libbpf's ordering of BTF type definitions** (`BtfGraph.dfy`, `BtfSearch.dfy`, `BtfSpec.dfy`,
  `BtfReach.dfy`, `BtfOrder.dfy`, `BtfTheorems.dfy`): a depth-first search over a cyclic type graph, with
  termination, the order it produces, that it defines what is needed and nothing that is not led to,
  and exactly which requests it refuses.
* **The two checksums** (`Wire.dfy`, `InternetChecksum.dfy`).

`dafny verify dfyconfig.toml` checks the whole project.

## Reading the model

*Environment.* Choices the code does not make are parameters: `fate` decides what happens to each
frame in flight, `lull` how much of it happens before the next packet, `script` what the listener
records meanwhile, `memory`, `canGrow` and `canAllocate` which allocations succeed, `processed` which
packets the receive path could handle. A contract holds for every value of these parameters, so one
method contract covers every run.

*Round-synchronous environments.* A `quiet` window is one where the ten-millisecond wait is long
enough for every frame in flight to arrive or be lost and for its feedback to be recorded. The
end-to-end theorems are about quiet windows, because sequence numbers and window slots are both
sixteen: `GoBackN.AliasIsDelivered` shows what a late copy does. The flush theorems are about all
windows. Each network step may pick any frame in flight, so frames are reordered freely.

*Acknowledgements.* The code that sends an ACK is not part of the repository; an ACK is taken to be
sent for each accepted frame. Kernel helpers are modelled by what the programs rely on;
`bpf_vtl_store_bytes` into a buffer that is too short is modelled both ways (cut, or no write).

*Absolute indices.* Packets carry their index in the stream beside their bytes. The programs never
look at it.

*Where code and comments disagree, the code is followed.* `vtl_csum` starts one byte before the
payload, so the last payload byte is not covered (`Wire.SingleByteDetection` is an if-and-only-if).
`hashmap.h` says that `hashmap__find` returns the last appended entry; a rehash turns the entries of a
key around, so this holds exactly after an even number of growths (`Multimap.FoundAfterAppend`, and
`Multimap.OldestIsFound` for an input). `cnt_bytes` is advanced by the size of the packet just received for every
packet drained after it (`dbr/dbr.c:222`), which is what `Reassembly.Reassembler.Process` states;
`ByteCount.ExactIffOneAtATime` and `ByteCount.ExactIffCreditedAsDelivered` say exactly when the counter
is right all the same.
`xsk_prod_nb_free` can return more than it was asked for, so that the receive path can ask the pool
for more frames than are free (`FramePool.Overdraws` says exactly when, `FramePool.InitialPoolRunsOut`
that it happens).
The reassembler takes a packet already delivered for a later one (`Reassembly.StaleIsDelivered`;
`Reassembly.RightIffHarmless` says exactly when that does no harm). The comment before
`btf_dump__dump_type` says that a struct used only through pointers is still defined in full; the
search does not queue it unless it is requested itself (`BtfReach.SearchLed`).

## Model

| member | source | states |
|---|---|---|
| GoBackN.Transfer | XTFsPool/store/egress_gobackn_graft.c:55-205 | Go-Back-N end to end: for all packets, losses, reorderings and detected corruptions, the delivered payloads are a prefix of those sent, and hold at least everything up to the last complete flush (one follows every sixteenth packet and every short one); a flush has delivered all sent so far if every slot is acknowledged, and strictly fewer otherwise, which ends the transfer and takes more than RETX_MAX disturbances of the network (steps other than the arrival of the oldest frame in flight); an undisturbed network completes every transfer; the number of network steps is bounded |
| GoBackN.Link.Send | XTFsPool/store/egress_gobackn_graft.c:132-204 | one call of the egress program keeps the invariant that relates window, network and receiver; a flush is complete if and only if everything sent has been delivered, also when earlier windows were cut short; an incomplete one has met more than RETX_MAX disturbances since the window was last in order |
| GoBackN.Link.Flush | XTFsPool/store/egress_gobackn_graft.c:140-202 | under any interference: at most RETX_MAX rounds, one wait each; every round saw what the listener had made of the slots at each look; each losing round resends exactly the slots from the first unacknowledged one on, the next scan starts there; what has been added to the network are the frames of these slots, in order, each as it was saved; in a quiet window a normal exit means everything was delivered, and each retransmission delivers everything unless the network disturbs it |
| GoBackN.FlushIsDetermined | XTFsPool/store/egress_gobackn_graft.c:140-202 | what the slots hold at the start and what the listener hears determine every round of a flush, how it ends and what the slots hold then |
| GoBackN.FlushLogMeans | XTFsPool/store/egress_gobackn_graft.c:140-202 | a log of at most ten rounds: all slots seen but the last are acknowledged, a losing round stops at one that is not and resends from it to the end, the next starts there, the last round of a normal exit saw all the rest acknowledged |
| GoBackN.Link.Turn | XTFsPool/store/egress_gobackn_graft.c:150-200 | one round after its wait: what it saw, what it resent and in which order, and where the slots and the network stand afterwards |
| GoBackN.Link.NetworkStep | XTFsPool/store/egress_gobackn_graft.c:170-194 | a step that is no disturbance keeps all undelivered packets in flight and in order |
| GoBackN.Link.Look | XTFsPool/store/egress_gobackn_graft.c:150-169 | in a quiet window the scan stops at exactly the first packet not delivered |
| GoBackN.Link.GoBack | XTFsPool/store/egress_gobackn_graft.c:167-196 | what is resent repeats the first transmission of each packet byte for byte |
| GoBackN.Scan | XTFsPool/store/egress_gobackn_graft.c:150-165 | the scan returns the first slot seen without an acknowledgement, and none was skipped; what it saw is what the slots showed at each look |
| GoBackN.BelowCursorSeenAcked | XTFsPool/store/egress_gobackn_graft.c:150-170 | every slot below the cursor was seen acknowledged in an earlier round |
| GoBackN.CursorMonotone | XTFsPool/store/egress_gobackn_graft.c:169-170 | the cursor never moves back |
| GoBackN.NormalExitSawAllAcked | XTFsPool/store/egress_gobackn_graft.c:197-200 | a normal exit means every slot of the window was seen acknowledged |
| GoBackN.Receiver.Receive | XTFsPool/store/ingress_gobackn_graft.c:46-108 | a good frame with the expected number is delivered and advances the number modulo 16, any other readable frame is refused with a NACK, unreadable ones and those without a socket pass |
| GoBackN.ReceiveAll | XTFsPool/store/ingress_gobackn_graft.c:71-92 | under any loss, duplication and reordering the payloads delivered are those of the packets accepted modulo 16; they are in sequence if and only if no arrival is an alias, and then exactly what an ideal receiver with unbounded numbers delivers, a prefix of the stream |
| GoBackN.InSequenceIffNoAlias | XTFsPool/store/ingress_gobackn_graft.c:81-88 | comparing numbers modulo 16 accepts packets in sequence if and only if no arriving packet other than the expected one has the expected residue |
| GoBackN.ReachExcludesAlias | XTFsPool/store/ingress_gobackn_graft.c:81-88 | arrivals less than sixteen away from the number delivered have no aliases |
| GoBackN.AliasIsDelivered | XTFsPool/store/ingress_gobackn_graft.c:81-88 | the receiver accepts packets 0 to 15 and then a copy of packet 0, which is delivered as packet 16 |
| GoBackN.AcceptedAfter | XTFsPool/store/ingress_gobackn_graft.c:81-88 | after n packets in order, any packet with the residue of n is accepted, and no other |
| SelectiveRepeat.Transfer | XTFsPool/store/egress_sr_graft.c:63-215 | Selective Repeat end to end: the bytes written are always those of a prefix of the packets sent, and hold at least everything up to the last complete flush (one follows every sixteenth packet and every short one); a flush has delivered all sent so far if no slot is left timed out or refused, and strictly fewer otherwise, which ends the transfer; when no frame is answered with a NACK (all hosts have sockets and no frame arrives with a wrong checksum), the flush is complete if and only if no slot is left timed out, and an incomplete one takes more than RETX_MAX frames lost or made unreadable; a good frame that meets no socket is never sent again and leaves the flush incomplete; a network that spoils nothing completes every transfer; the number of network steps is bounded |
| SelectiveRepeat.Link.Send | XTFsPool/store/egress_sr_graft.c:140-214 | one call of the egress program keeps the invariant that relates window, network and reassembly buffer |
| SelectiveRepeat.Link.Flush | XTFsPool/store/egress_sr_graft.c:149-211 | under any interference: every round saw what the listener and the scans themselves had made of the slots at each visit; the counter is the number of RECV_ACK-to-IDLE conversions, each round resends exactly the slots seen timed out, what has been added to the network are the frames of these slots, in order, each as it was saved; the flush ends after the first round that brings the counter to the window size, or after RETX_MAX; in a quiet window no slot is counted twice, the early exit means everything was delivered and is out of reach if a slot was IDLE from the start, and when nothing is refused a flush that leaves a packet missing has had more than RETX_MAX frames spoilt |
| SelectiveRepeat.FlushIsDetermined | XTFsPool/store/egress_sr_graft.c:149-211 | what the slots hold at the start and what the listener hears determine every round of a flush, what it resends, the counter and how it ends |
| SelectiveRepeat.IdleIsNotCounted | XTFsPool/store/egress_sr_graft.c:194-208 | slots counted by an earlier flush of the same run stay IDLE and are not counted again, so that the counter cannot reach the window size |
| SelectiveRepeat.Link.CountedIsDelivered | XTFsPool/store/egress_sr_graft.c:159-208 | in a quiet window a counter that has reached the window size means that every packet sent has been delivered |
| SelectiveRepeat.CoveredAgain | XTFsPool/store/egress_sr_graft.c:163-193 | after a scan every packet of the run has arrived or is in flight again |
| SelectiveRepeat.Link.Round | XTFsPool/store/egress_sr_graft.c:163-210 | one scan: what it saw is what the slots showed at each visit, with its own IDLE marks; the slots resent, in order, are those seen timed out, and their frames are what the network gets; the counter grows by the slots seen acknowledged |
| SelectiveRepeat.Link.Visit | XTFsPool/store/egress_sr_graft.c:165-209 | one slot, as the listener has left it: resent from its saved frame if timed out, counted and set to IDLE if acknowledged, left alone otherwise |
| SelectiveRepeat.CounterReachedMeansAllAcked | XTFsPool/store/egress_sr_graft.c:201-208 | if no slot is acknowledged twice, a counter that reaches the window size has counted every slot |
| SelectiveRepeat.ConversionsCountSlots | XTFsPool/store/egress_sr_graft.c:194-205 | without double acknowledgements the counter is the number of distinct slots acknowledged |
| SelectiveRepeat.ConversionsCount | XTFsPool/store/egress_sr_graft.c:194-205 | each round adds the number of slots it saw acknowledged to the counter |
| SelectiveRepeat.TimedOutIsIncreasing | XTFsPool/store/egress_sr_graft.c:163-193 | the resent slots are exactly the timed-out ones, in increasing order |
| SelectiveRepeat.Ingress | XTFsPool/store/ingress_sr_graft.c:39-88 | good frames are redirected if there is a socket, other readable ones are refused with a NACK |
| PartialReliability.Flush | XTFsPool/store/egress_partial_graft.c:148-223 | under any interference the rounds form a chain of losing rounds, ended by a tolerated one or by RETX_MAX; every round saw what the listener had made of the slots at each look; the frames resent are those of the slots from each stop on, in order, each as it was saved |
| PartialReliability.FlushIsDetermined | XTFsPool/store/egress_partial_graft.c:148-223 | what the slots hold at the start and what the listener hears determine every round of a flush, how it ends and what the slots hold then |
| PartialReliability.Scan | XTFsPool/store/egress_partial_graft.c:157-186 | the scan stops exactly at the third refused slot, or passes over the whole window with at most two; what it saw is what the slots showed at each look |
| PartialReliability.RoundMeans | XTFsPool/store/egress_partial_graft.c:157-191 | a losing round stopped at the third refused slot and resends from it to the end; a tolerated one passed over the rest of the window with at most two |
| PartialReliability.LeftBehind | XTFsPool/store/egress_partial_graft.c:181-191 | each losing round leaves exactly DEFAULT_LOSS refused slots behind the cursor |
| PartialReliability.LossIsBounded | XTFsPool/store/egress_partial_graft.c:148-222 | on a normal exit in round r every slot was passed over once, and between DEFAULT_LOSS*(r-1) and DEFAULT_LOSS*r of them were refused |
| Window.SendWindow.Admit | XTFsPool/store/egress_gobackn_graft.c:57-141 | a packet too short for the header, or of another protocol, is passed on unchanged; one whose checksum cannot be computed is passed on with only its type set to DATA; any other leaves, with its type DATA, checksum and sequence number written and every other byte as it was, unless it claims a full payload it does not have; what is transmitted carries the packet, the slot saves it, the number advances modulo 16, a flush follows slot 15 or a short packet |
| Window.SendWindow.Save | XTFsPool/store/egress_gobackn_graft.c:106-130 | padding for the copy and cutting back afterwards lose nothing of a frame of at most 1082 bytes; the slot keeps the first 1082 bytes, padded, and the length, or the full one if the frame claims a full payload; a frame that claims one it does not have is not saved |
| Window.SendWindow.Reload | XTFsPool/store/egress_gobackn_graft.c:185-191 | a full-sized slot, and the last slot, are rebuilt exactly as first sent, whether an over-long store fails or is cut; any other short slot is cut to the length of the packet sent last |
| Window.SendWindow.ResendFrom | XTFsPool/store/egress_gobackn_graft.c:170-194 | resends the slots in order, each equal to its first transmission in bytes and length when only the last can be short |
| Window.SendWindow.Listen | XTFsPool/store/egress_gobackn_graft.c:230-240 | feedback changes the slot it names and no other; numbers outside the window are ignored |
| Window.SendWindow.Interfere | XTFsPool/store/egress_gobackn_graft.c:208-245 | between two looks the slots change exactly as the packets heard say, in order |
| Window.SawSilence | XTFsPool/store/egress_gobackn_graft.c:150-165 | where nothing is heard, a scan sees the slots as they were |
| Reassembly.ReassembleAll | dbr/dbr.c:196-238 | for any arrivals in any order, each is taken for the packet of its residue among the next sixteen; the output is that of the last packet taken for each index below the first missing one; these are the right packets, so that the output is a prefix of the stream, if and only if no arrival does harm; within the window it is exactly the longest contiguous prefix that has arrived |
| Reassembly.RightIffHarmless | dbr/dbr.c:196-238 | the right packets are delivered if and only if every arrival is taken for itself, or for an index that is never delivered, or for an index whose own packet arrives later and before it is delivered |
| Reassembly.LastTaken | dbr/dbr.c:226-237 | what is delivered for an index is the last arrival taken for it |
| Reassembly.CreditedIsExact | dbr/dbr.c:203-222 | cnt_bytes is the number of bytes delivered when all packets that arrive have one size |
| Reassembly.CreditedDiffers | dbr/dbr.c:222-222 | and is not when two packets of different sizes arrive in reverse order |
| ByteCount.ExactIffCreditedAsDelivered | dbr/dbr.c:203-222 | for any arrivals: cnt_bytes is the number of bytes delivered, for every stream, if and only if each packet is credited (as the one whose arrival released it) as often as it is delivered |
| ByteCount.ExactIffOneAtATime | dbr/dbr.c:203-222 | if no arrival releases more than one packet it is; and where no packet is delivered twice, so wherever the right packets are delivered, only then |
| ByteCount.ErrorsCancel | dbr/dbr.c:203-222 | where packets are delivered twice that is not so: thirty-three arrivals, sixteen of which release two packets, and the counter is right for every stream |
| ByteCount.CreditedIsReleasers | dbr/dbr.c:222-222 | cnt_bytes is the size of the packets credited |
| ByteCount.SizeOfOutput | dbr/dbr.c:203-206 | the size of the packets delivered is that of the output |
| Reassembly.TakenInWindow | dbr/dbr.c:196-238 | within the window every packet is taken for itself |
| Reassembly.ConcatJoin | dbr/dbr.c:200-216 | payloads are joined from left to right |
| Reassembly.StaleIsDelivered | dbr/dbr.c:226-237 | after sixteen packets a second copy of packet 1 is stored and delivered as packet 17 |
| Reassembly.StaleIsReplaced | dbr/dbr.c:226-237 | unless packet 17 itself overwrites the slot before packet 16 arrives |
| Reassembly.InOrderTaken | dbr/dbr.c:196-208 | packets arriving in order are taken for themselves, so that the two runs above exist |
| Reassembly.Reassembler.Process | dbr/dbr.c:173-240 | keeps the invariant for every sequence number below sixteen: cnt_pkts is the length of the longest prefix n, next_num is n mod 16, a slot is occupied exactly when the packet after n taken for it has arrived, the output is the joined prefix and grows by the sizes of the packets delivered; cnt_bytes grows by the size of the packet just received for each of them |
| Reassembly.Reassembler.Purge | dbr/dbr.c:209-224 | drains exactly the packets stored in sequence, in at most fifteen turns |
| Reassembly.PrefixIsLeastMissing | dbr/dbr.c:207-224 | the invariant determines the number delivered: the least index not yet arrived |
| Wire.ComputeChecksum | include/vtl.h:222-269 | the loop folds the bytes from position 57 on, as many as the length field says but at most 1025, and fails exactly if the frame ends before or is no VTL frame with a byte of payload |
| Wire.LengthField | include/vtl.h:78-84 | the length is the eight bytes from position 42 on, the low byte first |
| Wire.OrdinaryFrame | include/vtl.h:222-269 | a frame of a 58-byte header and 1 to 1024 bytes that it announces is well formed; its checksum is the fold of bytes 57 to 56 + n, and a receiver finds checksum, sequence number and payload at bytes 50, 52 and 58 |
| Wire.XorJoin | include/vtl.h:255-264 | the fold of two buffers joined is the exclusive or of their folds |
| Wire.StampFrame | XTFsPool/store/egress_gobackn_graft.c:83-97 | the stamped frame decodes to a good checksum, the sequence number and the unchanged payload; its type is DATA, and no byte but type, checksum and sequence number differs |
| Wire.StampVerifies | XTFsPool/store/ingress_gobackn_graft.c:75-82 | what is stamped at egress verifies at ingress: the fields written are disjoint from the bytes covered |
| Wire.SingleByteDetection | include/vtl.h:249-266 | a change of one byte at or after the covered range is detected if and only if the byte is covered |
| Wire.HeaderByteDetection | include/vtl.h:222-247 | a change of one header byte, the length field apart, is detected if and only if it is the protocol or a checksum byte |
| Wire.SeqNumUnprotected | XTFsPool/store/ingress_sr_graft.c:66-72 | so a good frame can arrive under any sequence number |
| Channel.AlteredIsDetected | include/vtl.h:222-269 | a frame altered in one byte outside the length field counts as corrupted detectably if and only if the byte is the protocol, in the checksum, or covered by it |
| InternetChecksum.Checksum | include/common/util.c:80-109 | the complement of the one's complement sum; up to 65537 words the 32-bit sum cannot overflow |
| InternetChecksum.Fold | include/common/util.c:98-103 | folding terminates with the representative of the sum modulo 65535 |
| InternetChecksum.FillChecksum | dbr/dbr.c:104-106 | the value stored is the complement of the one's complement sum of the header with the field zeroed, and the checksum of the filled header is then zero; no other byte changes |
| InternetChecksum.WordSumBytes | include/common/util.c:86-96 | the sum counts the bytes at even positions once and those at odd positions 256 times |
| InternetChecksum.OnesSumCongruent | include/common/util.c:98-103 | folding keeps the sum modulo 65535 |
| InternetChecksum.ComplementIsUnique | include/common/util.c:105-108 | no other field value does, up to the two zeros of one's complement |
| InternetChecksum.BoundIsReached | include/common/util.c:80-97 | the bound of 65537 words is exact: n words with all bits set overflow the 32-bit sum if and only if n exceeds it |
| XskRing.Interleave | XTFsPool/include/bpf/xsk.h:85-164 | for every interleaving of reserve, write, submit, peek, read and release, every ring size and number of wrap-arounds: what is produced, what is read and how many entries are in use are those of a queue without slots, masks and wrapping counters; entries in use never exceed the ring |
| XskRing.Session.Do | XTFsPool/include/bpf/xsk.h:85-164 | one step of either side does to the ring what it does to that queue; no slot shows anything else |
| XskRing.SubmittedStays | XTFsPool/include/bpf/xsk.h:128-136 | a submitted value never changes, and reading goes on where it stopped |
| XskRing.WrittenIsRead | XTFsPool/include/bpf/xsk.h:48-78 | after any history with nothing pending and room for them, a batch of any number of values written in order into reserved entries and submitted is what is read next, in order |
| XskRing.ReleasedIsFree | XTFsPool/include/bpf/xsk.h:85-164 | after any history, releasing m entries that were read lets exactly m more be reserved |
| XskRing.LastWriteStays | XTFsPool/include/bpf/xsk.h:48-54 | in every run the value at a position is the last one written to it |
| XskRing.Ring.NbFree | XTFsPool/include/bpf/xsk.h:85-102 | the wrapped difference is the exact number of entries known to be free; the consumer counter is read if and only if fewer are known than asked for |
| XskRing.Ring.Reserve | XTFsPool/include/bpf/xsk.h:116-126 | succeeds if and only if that many entries are free |
| XskRing.Ring.Write | XTFsPool/include/bpf/xsk.h:48-54 | writing a reserved entry changes no other slot of the ring |
| XskRing.Ring.Submit | XTFsPool/include/bpf/xsk.h:128-136 | appends exactly the next entries to what the consumer will read |
| XskRing.Ring.NbAvail | XTFsPool/include/bpf/xsk.h:104-114 | the wrapped difference is the exact number of entries known to be available; the producer counter is read if and only if none is |
| XskRing.Ring.Peek | XTFsPool/include/bpf/xsk.h:138-154 | takes the smaller of nb and the entries known, and none only if there is none |
| XskRing.Ring.Read | XTFsPool/include/bpf/xsk.h:72-78 | an entry taken is the one submitted at that position |
| XskRing.Ring.Release | XTFsPool/include/bpf/xsk.h:156-164 | returns exactly the entries released to the producer |
| XskRing.MaskIsSlot | XTFsPool/include/bpf/xsk.h:53-53 | masking with size - 1 selects the low bits |
| XskRing.WrapKeepsSlot | XTFsPool/include/bpf/xsk.h:53-53 | the wrap of a counter does not move its slot |
| XskRing.SlotsDiffer | XTFsPool/include/bpf/xsk.h:48-78 | positions less than the ring size apart have different slots |
| FramePool.Socket.Receive | dbr/dbr.c:242-281 | INVALID_UMEM_FRAME is posted if and only if, before the call, packets wait and either more free entries are known than frames are free, or fewer are known and more exist; never while a ring full of frames is free; otherwise the call moves frames exactly as specified and every frame stays in exactly one place; the loop that would reserve again is never entered |
| FramePool.Lifetime | dbr/dbr.c:242-281 | for every sequence of kernel steps and receive calls: INVALID_UMEM_FRAME is posted if and only if some call overdraws, as the steps alone determine; until then the frames are where the steps say, every frame is in exactly one place, and no more than NUM_FRAMES packets have been processed |
| FramePool.AfterConserves | dbr/dbr.c:242-281 | every kernel step and every call that does not overdraw keeps every frame in exactly one place |
| FramePool.CallMeans | dbr/dbr.c:242-281 | a call that does not overdraw, in numbers: at most 64 packets, all it knows of or else all there are; as many frames posted as entries known if these suffice for all free frames, and else a ring full, from the top of the stack; every packet taken frees its frame or retires it |
| FramePool.InitialPoolRunsOut | dbr/dbr.c:253-268 | it does happen: a run of bursts of fifty packets, all processed, in which a call posts INVALID_UMEM_FRAME |
| FramePool.PoolRunsOut | dbr/dbr.c:270-278 | processed frames are never freed: from any state at rest whose free frames are no multiple of the burst, bursts exhaust the pool |
| FramePool.RingfulIsEnough | XTFsPool/include/bpf/xsk.h:85-102 | no call overdraws while a ring full of frames is free |
| FramePool.Socket.Refill | dbr/dbr.c:253-268 | posts the frames popped off the stack, in order; their number is what is known to be free in the ring, or all that is free if less is known than there are frames; the loop that would reserve again is not entered, however long it could run |
| FramePool.ReserveAgain | dbr/dbr.c:259-261 | that loop: not entered after a reservation that was granted, never left after one that was refused, since nothing makes room meanwhile |
| FramePool.Socket.ProcessAll | dbr/dbr.c:270-278 | the frames of packets that cannot be processed go back on the stack in order, the others are retired |
| FramePool.Socket.ProcessOne | dbr/dbr.c:271-277 | one descriptor retires its frame or frees it |
| FramePool.Socket.Restock | include/common/xsk_user_helpers.c:118-123 | the entries submitted are the top of the stack, and INVALID_UMEM_FRAME below its bottom |
| FramePool.Socket.Alloc | include/common/xsk_user_helpers.c:42-52 | pops the top frame, or returns INVALID_UMEM_FRAME when there is none |
| FramePool.Socket.Free | include/common/xsk_user_helpers.c:54-60 | pushes the frame |
| FramePool.Socket.StackFrames | include/common/xsk_user_helpers.c:103-108 | the initial stack holds every frame of the buffer once |
| FramePool.Socket.Configure | include/common/xsk_user_helpers.c:103-123 | the set-up leaves the initial pool: a ring full of frames posted, the rest free, every frame in exactly one place |
| FramePool.Socket.KernelTake | XTFsPool/include/bpf/xsk.h:138-164 | the kernel takes the frame at the head of the fill ring |
| FramePool.Socket.KernelPost | XTFsPool/include/bpf/xsk.h:116-136 | the kernel hands over a packet in a frame it holds, if the receive ring has room |
| FramePool.ExactlyOnePlace | include/common/xsk_user_helpers.c:42-60 | conservation means that each frame is in exactly one of free stack, fill ring, kernel, receive ring and retired |
| HashMap.Run | lib/libbpf/src/hashmap.c:142-228 | for every sequence of add, set, update, append, delete and find, under any allocation failures and growths, outcomes and size are those of a multimap that keeps the order in which lookups meet the pairs of a name; without append they are those of a mathematical map |
| Multimap.PlainRun | lib/libbpf/src/hashmap.c:142-228 | without append the multimap is a mathematical map: return codes, previous and found pairs and size; memory runs out only where a new pair would be stored and an allocation fails or the table is of the largest size |
| Multimap.FoundAfterAppend | lib/libbpf/src/hashmap.h:74-79 | a lookup after an append finds the pair appended if and only if the table has grown an even number of times since, or it is the oldest pair too; otherwise it finds the oldest |
| Multimap.OldestIsFound | lib/libbpf/src/hashmap.c:82-116 | it does happen: two pairs appended for one key, then two more keys; the fourth insertion grows the table and the lookup finds the first pair |
| Multimap.SparedRun | lib/libbpf/src/hashmap.c:105-108 | operations on other names turn the pairs of a name around once per growth and change nothing else |
| MapLaws.CallsAreAnswered | lib/libbpf/src/hashmap.c:142-228 | without append, told by the calls alone: if some earlier call was the last to store a pair under the name and it was not deleted since, a lookup finds its value, a deletion returns its pair, add fails, set and update succeed and return the pair as the old one; otherwise lookup and deletion find nothing, update fails, add and set succeed or have run out of memory |
| MapLaws.CapacityLaw | lib/libbpf/src/hashmap.c:82-116 | if entries can be allocated, the capacity is at any time the least power of two from four on that four thirds of the largest number of entries so far fit into |
| MapLaws.NewPairCapacity | lib/libbpf/src/hashmap.c:172-177 | a new pair makes the table, or doubles it exactly when four thirds of the new size do not fit, also if the entry cannot be allocated then |
| MapLaws.PairsAfter | lib/libbpf/src/hashmap.c:142-228 | with several pairs under a name, deletion takes the first, set and update replace the first, and a new pair goes before the others, turned around if the table has grown |
| HashMap.Map.Insert | lib/libbpf/src/hashmap.c:142-192 | status, previous pair and stored pairs follow the strategy: existing pairs are kept, replaced at the front or joined by a new front pair; a growth stays when the entry cannot be allocated |
| HashMap.Map.Find | lib/libbpf/src/hashmap.c:194-206 | finds the front pair of the name, and nothing exactly when there is none |
| HashMap.Map.Delete | lib/libbpf/src/hashmap.c:208-228 | removes exactly the front pair of the name and returns it |
| HashMap.Map.Size | lib/libbpf/src/hashmap.c:72-75 | the number of entries |
| HashMap.Map.FindEntry | lib/libbpf/src/hashmap.c:118-140 | the first entry of the name with its predecessor, and null only if there is none in the whole map |
| HashMap.Map.Grow | lib/libbpf/src/hashmap.c:88-116 | keeps every entry, doubles the capacity, turns the pairs of every name around, and changes nothing when memory runs out |
| HashMap.Rehash | lib/libbpf/src/hashmap.c:105-108 | moves exactly the old entries into well-formed chains, each in the bucket of its hash, the entries of each name in reverse order |
| HashMap.MoveChain | lib/libbpf/src/hashmap.h:150-154 | the safe iteration moves every entry of a chain although each is relinked on the way, those of one name before the ones moved earlier and in reverse order |
| HashMap.Map.MakeRoom | lib/libbpf/src/hashmap.c:82-86 | after it, 4/3 of the new size fits the capacity, which is four if there was no table, doubled exactly if it did not fit before, and else as it was |
| HashMap.AddEntry | lib/libbpf/src/hashmap.c:18-23 | pushing keeps the table well formed and puts exactly the entry at the head of its chain |
| HashMap.DelEntry | lib/libbpf/src/hashmap.c:25-30 | unlinking keeps the table well formed and takes exactly the entry out of its chain |
| HashMap.HashBits | lib/libbpf/src/hashmap.h:20-24 | the bucket number is the quotient of the shuffled hash by 2^(64 - bits), below 2^bits |
| BtfTheorems.DumpAll | lib/libbpf/src/btf_dump.c:204-236 | when no request fails, the output holds every requested named struct or union, typedef and enum (a nameless enum if nothing refers to it) and nothing but named structs and unions, typedefs and such enums; it defines everything before it is needed (embedded, or embedded in a struct without a name behind a pointer; enums also where they are behind one), repeats nothing but typedefs, contains everything the requested types need and nothing that no trail from a requested type leads to (a named struct or union only where some trail reaches it without a pointer), these have no embedding cycle, and no firm trail gives a reason to refuse; the first request that fails ran out of memory, names no type or has a trail that comes back to a struct or union which a forward declaration cannot replace, or that ends at an unknown kind; in plain sessions (memory suffices, types exist, no struct or union reaches a prototype without a pointer, and what an exposed prototype mentions is requested too) failure happens if and only if such a trail exists |
| BtfReach.SearchLed | lib/libbpf/src/btf_dump.c:404-545 | whatever a search defines is reached by a trail from what was requested, and not only behind a pointer if it is a named struct or union |
| BtfTheorems.FailsExactly | lib/libbpf/src/btf_dump.c:428-434 | the two directions together: in a plain session, failing is the same as a requested type having a reason to be refused |
| BtfSearch.ClearHasNoReason | lib/libbpf/src/btf_dump.c:404-545 | whatever the search has gone through without failing has no firm trail to an unsatisfiable loop or an unknown kind, although marked types are never followed again |
| BtfTheorems.FirmReasonsSuffice | lib/libbpf/src/btf_dump.c:517-535 | in such sessions a reason to refuse some request is a firm reason to refuse it or another one |
| BtfTheorems.WholeTableIsPlain | lib/libbpf/src/btf_dump.c:517-535 | requesting every type of a table is such a session if no struct or union reaches a prototype without a pointer, whatever prototypes and typedefs of prototypes there are |
| BtfSearch.ReasonMoves | lib/libbpf/src/btf_dump.c:517-535 | what follows the last prototype met without a pointer is a firm trail from something requested, with the same reason |
| BtfTheorems.PrototypeGap | lib/libbpf/src/btf_dump.c:493-511 | otherwise the two differ: a table with a reason to refuse a struct but no firm one |
| BtfTheorems.OrderMatters | lib/libbpf/src/btf_dump.c:493-511 | on that table the struct requested alone is refused, and requested after a pointer to the function type it is served, because a typedef of a function type is marked once any part of it is strong |
| BtfTheorems.GapRefused | lib/libbpf/src/btf_dump.c:428-434 | the search of the struct alone ends in a loop |
| BtfTheorems.GapAccepted | lib/libbpf/src/btf_dump.c:424-426 | after the search of the pointer it succeeds |
| BtfTheorems.NeededQueuedBefore | lib/libbpf/src/btf_dump.c:330-384 | when a definition is queued, every definition it needs was queued before: through any chain of embeddings, and through pointers and prototypes that lead to structs without a name |
| BtfTheorems.NeededAllQueued | lib/libbpf/src/btf_dump.c:330-384 | every definition that a searched type needs is queued |
| BtfTheorems.EmbeddingIsTrail | lib/libbpf/src/btf_dump.c:341-350 | chains of embeddings are among these |
| BtfTheorems.TrailIsEmbedding | lib/libbpf/src/btf_dump.c:341-350 | and trails on which nothing is behind a pointer are chains of embeddings |
| BtfTheorems.EmbeddedQueuedBefore | lib/libbpf/src/btf_dump.c:330-384 | for chains of embeddings the order holds even when earlier requests failed |
| BtfTheorems.EmbeddedAllQueued | lib/libbpf/src/btf_dump.c:330-384 | every definition embedded in an ordered type is queued |
| BtfTheorems.NoEmbeddingCycle | lib/libbpf/src/btf_dump.c:428-434 | no embedding cycle can be reached by embedding from an ordered type |
| BtfTheorems.QueuedOnce | lib/libbpf/src/btf_dump.c:422-491 | structs, unions, enums and forward declarations are queued at most once |
| BtfSpec.SearchKeeps | lib/libbpf/src/btf_dump.c:404-545 | every search keeps the definitions in order and the queue equal to those to be emitted, leaves no struct or union half visited unless it fails, and success without a pointer, or a strong result, means that everything embedded is defined; memory runs out only when a reallocation fails |
| BtfSpec.CompositeKeeps | lib/libbpf/src/btf_dump.c:449-477 | a struct or union is defined after all its members |
| BtfSpec.TypedefKeeps | lib/libbpf/src/btf_dump.c:493-511 | a typedef is defined after its target, and not at all behind a pointer with a weak target |
| BtfSpec.CompletedSound | lib/libbpf/src/btf_dump.c:469-476 | a definition is logged, queued if it is a top-level one, and marked, or nothing changes when memory runs out |
| BtfSpec.SearchClears | lib/libbpf/src/btf_dump.c:404-545 | a search that succeeds has gone through everything it leads to, if all before it did |
| BtfSpec.SearchExplained | lib/libbpf/src/btf_dump.c:428-434 | a search that refuses has followed a trail that comes back to a struct or union which a forward declaration cannot replace, or that ends at an unknown kind |
| BtfOrder.Dumper.OrderType | lib/libbpf/src/btf_dump.c:404-545 | terminates; its result, the states of all types and the queue are exactly those of the search as a function |
| BtfOrder.Dumper.OrderComposite | lib/libbpf/src/btf_dump.c:449-477 | the loop over the members does what the search does |
| BtfOrder.Dumper.OrderProto | lib/libbpf/src/btf_dump.c:517-535 | the result and the loop over the parameters do what the search does: strong if any of them is |
| BtfOrder.Dumper.Complete | lib/libbpf/src/btf_dump.c:469-476 | a named struct or union, a typedef and an enum that is named or unreferenced is put on the queue, nothing else is; logged and marked as the search does, or nothing changes when memory runs out |
| BtfOrder.Dumper.Enqueue | lib/libbpf/src/btf_dump.c:311-328 | appends within the capacity, growing it by half, to sixteen at least, when full; fails exactly if the growth does |
| BtfOrder.Dumper.DumpType | lib/libbpf/src/btf_dump.c:220-236 | one request is one search with an empty queue; what was emitted is what was queued, and everything embedded and led to is defined and searched, while none has failed; a refusal comes with a trail that explains it |
| BtfGraph.RankExists | lib/libbpf/src/btf_dump.c:404-545 | the measure of termination exists for every graph whose cycles all pass through a struct or union |
| BtfGraph.RankedHasNoFreeCycle | lib/libbpf/src/btf_dump.c:441-447 | and only for those |

## Left out

- Corruption that the checksum does not detect (`Wire.SingleByteDetection`): the network of the end-to-end theorems loses such a frame.
- Timers, and how likely the network is to spoil a retransmission.
- Feedback that is lost or late in the end-to-end theorems: with as many sequence numbers as slots they do not hold then (`GoBackN.AliasIsDelivered`).
- Single map accesses are atomic: the Selective Repeat scan reads a slot once, where the C code reads it through a live pointer up to twice.
- Memory ordering of the AF_XDP ring beyond sequential consistency, and the kernel's own use of it except through the same operations.
- FramePool.Lifetime: what follows the first INVALID_UMEM_FRAME.
- FramePool.Socket.Receive: the kernel side takes its steps between calls of the receive path, not inside one; the ring theorems cover the finer interleaving.
- Reassembly.Reassembler.Process: sequence numbers of sixteen and above, for which the C code indexes out of bounds (no checksum keeps them out, `Wire.SeqNumUnprotected`), and a failed allocation for a packet out of order whose slot is in use, after which it copies from a null pointer.
- SelectiveRepeat.Transfer: allocation in the reassembly buffer always succeeds; the acknowledgement would already have been sent.
- HashMap.Map.Grow: tables of more than 2^60 buckets, for which the allocation is taken to fail.
- HashMap.HashBits: the shift by 64 for an empty map, whose value the code never uses.
- Reuse after `hashmap__clear`, the iteration macros other than the safe one over all entries, and freeing of memory.
- BtfTheorems.DumpAll: typedefs may be queued twice (through a function prototype), so uniqueness leaves them out; outside plain sessions the conditions for refusal and for success leave a gap (`BtfTheorems.PrototypeGap`), in which the order of requests decides (`BtfTheorems.OrderMatters`) and no condition on the table alone is given.
- `btf_dump_mark_referenced` and the emission of C text: the referenced flags are an input, and the output is the order of definitions.
- The Ethernet, IPv4 and VTL header fields that no modelled program reads, and the rewriting of a refused frame into a NACK beyond its type and sequence number.
- Stop-and-wait, the partial-reliability receiver, the canonical grafts, the hooker, launcher, service API, user interface, network monitor and the helpers around sockets and ELF files: no deep invariant of their own, or no delivery guarantee to state.
