# Verified models of odp-dpdk

Dafny models of the logic-heavy parts of odp-dpdk, with proofs.

**IPv4 reassembly** (`example/ipfragreass`). Fragments arrive on any number of threads and are
kept in hash map buckets. A bucket is one 128-bit atomic word: the tail of a linked list and a
summary of it. A thread loads the word, links its private list in front, and either publishes
the longer list with a compare-and-swap or takes the whole list away to sort it, cut complete
datagrams out and send them. `ReassState` models this as a state machine whose steps make one
access to a shared word each; `ReassPlaces`, `ReassLinks`, `ReassSafety` and `ReassComplete`
prove what every step keeps, `ReassTheorems`, `ReassCounts`, `ReassProgress`, `ReassRoundTrip` and
`ReassStuck` what holds of every run. `FragOrder`, `FragSort`, `FragExtract` and `FlowExact` are about the comparison, the
sort and the extraction as functions on lists; `FragList` and `AddFraglist` are the operations on
linked records in memory; `IpHeader`, `Fragment` and `Glue` work on packet bytes.

**Checksums** (`helper/chksum.c` and two incremental updates). `OnesComplement` is the arithmetic
modulo 65535, `SegmentSum` the sum over segments with carried odd bytes, `L4Checksum`,
`IncrementalChecksum` and `SctpChecksum` the operations.

**DMA sessions** (`platform/linux-dpdk/odp_dma.c`). `DmaOrder` and `DmaSession`: transfers on a
device that numbers jobs modulo 2^16 and completes them in order.

**Eventdev scheduler** (`platform/linux-dpdk/odp_schedule_eventdev.c`). `EventdevLinks` and
`EventdevSched`: groups, queues and port links; `EventdevClassify` and `EventdevCache`: batch
classification and the cache of leftover events.

**Layer 3 forwarder** (`example/l3fwd`). `L3fwdRoutes`, `FlowTable` and `FlowCacheRun`: the flow
hash cache; `LpmTrie` and `LpmCells`: the trie as a map from positions to nodes; `LpmLongest`,
`LpmInsert` and `LpmRoutes`: when it answers with the longest match; `LpmArena`: the trie in its
arena; `L3fwdBurst`: the burst loop. `Fates` is shared by the two places that hand batches out to
queues, `Basics` by most modules.

Where the code does less than its comments say, the model follows the code and the exact
condition is proved, together with an input for which it fails:

- The flow comparison ORs its fields, so it orders flows only if no two of them differ in
  opposite directions (`FlowExact.CompleteIffOrdered`, `FlowExact.UnorderedMissed`); for whole runs
  this is decided by `ReassStuck.ReliableIffOrdered`, and `ReassStuck.UnorderedStuck` gives the runs.
- An odd last byte strictly inside a segment is not counted (`L4Checksum.SegmentedIsFlat`,
  `L4Checksum.OddByteExample`).
- A UDP checksum computed as zero is stored as zero, which means "no checksum" to the verifier
  (`L4Checksum.GenerateThenVerify`, `L4Checksum.ZeroChecksumExample`).
- The incremental checksum differs from the recomputed one for data that becomes all zero
  (`IncrementalChecksum.UpdateIsRecompute`, `IncrementalChecksum.ZeroedExample`), and the TTL
  update is wrong for every TTL of zero (`IncrementalChecksum.DecTtlKeepsChecksum`).
- Adding a thread to a predefined group, and creating or destroying a group, do not touch the
  device (`EventdevSched.Eventdev.ThrAdd`, `GroupCreate`, `GroupDestroy`). Calls from the start
  that end in a wrong link are given by `EventdevSched.ThrAddMisses`, `GroupCreateMisses` and
  `GroupDestroyLeaves`.
- A route with bits beyond its prefix fills the cache with flows the scan would not find
  (`L3fwdRoutes.WarmedRightIff`, `L3fwdRoutes.OddExample`).
- The trie puts prefixes that do not end at a level boundary at one node only
  (`LpmRoutes.SinglePrefixRight`).
- The trie forgets a prefix when a longer one is inserted below it (`LpmInsert.NestedLost`), and
  a shorter prefix inserted after a longer one reaches only some of the levels below. Exactly when
  an insertion is right is decided by `LpmInsert.InsertRightIff`, for routes that are not nested by
  `LpmInsert.InsertAloneIff`, for two nested prefixes by `LpmRoutes.NestedPairIff`, and for whole
  lists by `LpmRoutes.SequenceRightIff`.
- A prefix shorter than 16 bits overwrites a longer one at the same first-level node
  (`LpmRoutes.ShorterOverwrites`; the condition is part of `LpmInsert.InsertRightIff`).
- The bytes reserved for the trie's tables hold fewer tables than the code may hand out
  (`LpmArena.ClearsInside`, `LpmArena.ReservedTables`); the route database never asks for that many
  (`LpmArena.SetUp`).

## Model

| member | source | states |
|---|---|---|
| `ReassTheorems.Conserved` | example/ipfragreass/odp_ipfragreass_reassemble.c:384-761 | In every state of every run, that is, every interleaving of threads that submit, load, publish, take, sort, extract, retry and collect garbage, each fragment is in exactly one place: not submitted, with one thread, in one bucket, in one output, or freed. No assumption about flows or overlap. |
| `ReassTheorems.NeverTwice` | example/ipfragreass/odp_ipfragreass_reassemble.c:384-718 | ... and no list holds a fragment twice. |
| `ReassTheorems.ChainInMemory` | example/ipfragreass/odp_ipfragreass_reassemble.c:396-441 | In every reachable state, following the prev links from the tail in a bucket word visits exactly the fragments of that bucket, in order, and ends at NULL: chains have no cycle. |
| `ReassTheorems.BucketSummary` | example/ipfragreass/odp_ipfragreass_reassemble.c:403-441 | In every reachable state, part_len of a bucket is at least the saturated sum of the payload lengths in it and at most IP_OCTET_MAX, and whole_len is at most the reassembled length bound of every fragment in it. |
| `ReassCounts.BucketExact` | example/ipfragreass/odp_ipfragreass_reassemble.c:403-441 | As long as nothing has been sent and no thread has collected garbage, part_len of every bucket is exactly the saturated sum of the payload lengths in it and whole_len the least bound, in every state of every run. |
| `ReassTheorems.NoneAtRest` | example/ipfragreass/odp_ipfragreass_reassemble.c:434-541 | No bucket ever holds all fragments of a datagram, if fragments do not overlap and the flows that share a bucket are ordered field by field. |
| `ReassTheorems.FlowsFreedWhole` | example/ipfragreass/odp_ipfragreass_reassemble.c:609-663 | Under the same hypotheses, what garbage collection frees in a step is exactly the fragments of one flow in the list it has taken. |
| `ReassTheorems.RetryCaused` | example/ipfragreass/odp_ipfragreass_reassemble.c:434-463 | Every retry is caused by another thread: between the load and the compare-and-swap that fails, another thread made a successful compare-and-swap on the same bucket. |
| `ReassProgress.FinishesAlone` | example/ipfragreass/odp_ipfragreass_reassemble.c:396-543 | While no other thread changes its bucket, a thread makes at most 9n + 8 steps, n being the fragments it holds and those in the bucket: the retry loop terminates without interference, and with interference it is lock-free. |
| `ReassProgress.OwnStep` | example/ipfragreass/odp_ipfragreass_reassemble.c:396-543 | Every step of an undisturbed thread lowers a rank made of the remaining fragments, the dont_assemble flag and the phase. |
| `ReassProgress.NeverBlocked` | example/ipfragreass/odp_ipfragreass_reassemble.c:396-543 | A thread that is not idle can always take its next step. |
| `ReassProgress.SubmitUndisturbed` | example/ipfragreass/odp_ipfragreass_reassemble.c:558-572 | A newly submitted fragment starts undisturbed, so the bound holds from there. |
| `ReassRoundTrip.Delivered` | example/ipfragreass/odp_ipfragreass_reassemble.c:384-544 | Once all threads are done, every complete datagram whose fragments were all submitted and not collected is output exactly once, for every order of submission and every interleaving. |
| `ReassRoundTrip.EndToEnd` | example/ipfragreass/odp_ipfragreass_reassemble.c:292-761 | For every set of oversized datagrams, no two of which agree in identification, protocol and addresses (bytes 4-5, 9 and 12-19), ordered within each bucket: fragmenting them all and submitting the fragments in any order, with any interleaving, outputs exactly the fragment lists of these datagrams, each once, and gluing a list gives back its datagram byte for byte exactly if that was canonical (section 3.2 of RFC 791). |
| `ReassRoundTrip.DatagramUnique` | example/ipfragreass/odp_ipfragreass_reassemble.c:168-281 | Non-overlapping fragments of one flow make up at most one datagram. |
| `ReassRoundTrip.FragmentsDatagram` | example/ipfragreass/odp_ipfragreass_fragment.c:33-93 | The fragments of an oversized packet, in reverse order, are a complete datagram in the sense of the reassembler. |
| `ReassRoundTrip.TrafficTame` | example/ipfragreass/odp_ipfragreass_fragment.c:33-93 | Fragments of packets that differ in one of these bytes never overlap, so fragmented traffic meets the hypotheses of the reassembler. |
| `ReassPlaces.PlacedStep` | example/ipfragreass/odp_ipfragreass_reassemble.c:384-718 | Every step keeps the assignment of fragments to places. |
| `ReassSafety.GoodStep` | example/ipfragreass/odp_ipfragreass_reassemble.c:396-718 | Every step keeps all lists in memory, their summaries and their bucket; and a step writes no prev link of a fragment that another thread or an untouched bucket holds. |
| `ReassSafety.SwapGood` | example/ipfragreass/odp_ipfragreass_reassemble.c:434-463 | A compare-and-swap that succeeds finds the list it was prepared for, even if the bucket was changed and changed back in between. |
| `ReassComplete.PublishSettled` | example/ipfragreass/odp_ipfragreass_reassemble.c:434-441 | A list is published without an attempt at reassembly only if it holds no complete datagram. |
| `ReassComplete.SettledStep` | example/ipfragreass/odp_ipfragreass_reassemble.c:396-543 | Under these hypotheses every step keeps all buckets free of complete datagrams. |
| `ReassComplete.OutputStep` | example/ipfragreass/odp_ipfragreass_reassemble.c:475-485 | Whatever is sent is a complete datagram. |
| `ReassComplete.VersionStep` | example/ipfragreass/odp_ipfragreass_reassemble.c:434-463 | A bucket changes exactly with a successful compare-and-swap. |
| `ReassComplete.RunSafe` | example/ipfragreass/odp_ipfragreass_reassemble.c:384-761 | All invariants hold in every state of every run. |
| `ReassLinks.LinkedWalk` | example/ipfragreass/odp_ipfragreass_reassemble.h:122-149 | Walking the links of a list in memory reaches exactly its fragments. |
| `ReassLinks.SummaryRulesOut` | example/ipfragreass/odp_ipfragreass_reassemble.c:430-434 | If part_len is below whole_len, the list holds no complete datagram: the length test never misses one. |
| `ReassLinks.BypassLinked` | example/ipfragreass/odp_ipfragreass_reassemble.c:633-637 | Linking around a slice takes exactly that slice out of the list. |
| `FlowExact.CompleteIffOrdered` | example/ipfragreass/odp_ipfragreass_reassemble.c:46-56 | Sorting and extraction find a datagram exactly when there is one, for all non-overlapping fragment lists with flows from a set, if and only if the flows of the set are ordered field by field. |
| `FlowExact.UnorderedMissed` | example/ipfragreass/odp_ipfragreass_reassemble.c:46-56 | The failing inputs: any two fragments of a packet with a fragment of a packet of an unordered flow between them hide the first packet. |
| `ReassStuck.ReliableIffOrdered` | example/ipfragreass/odp_ipfragreass_reassemble.c:384-543 | For any set of flows: in every configuration whose fragments are of these flows and do not overlap, no run ever leaves a complete datagram in a bucket, if and only if the flows are ordered field by field. |
| `ReassStuck.UnorderedStuck` | example/ipfragreass/odp_ipfragreass_reassemble.c:384-543 | For any two packets of unordered flows that share a bucket, the first of two fragments, there is a run that ends with all threads idle, nothing sent or freed, and both fragments of the first packet in the bucket. |
| `FragOrder.LaterFlowLinear` | example/ipfragreass/odp_ipfragreass_reassemble.c:46-56 | The flow comparison is a strict linear order on a set of flows if and only if the flows are ordered field by field. |
| `FragOrder.LaterInFlow` | example/ipfragreass/odp_ipfragreass_reassemble.c:125-154 | Within one flow, later means: lies behind. |
| `FragOrder.LaterCopy` | example/ipfragreass/odp_ipfragreass_reassemble.c:139-149 | Of two copies of a fragment the later one is the one that arrived later, also after 32-bit wrap-around. |
| `FragOrder.LaterTotal` | example/ipfragreass/odp_ipfragreass_reassemble.c:125-154 | On non-overlapping fragments of ordered flows the comparison is total and asymmetric. |
| `FragOrder.LaterTransitive` | example/ipfragreass/odp_ipfragreass_reassemble.c:125-154 | ... and transitive. |
| `FragOrder.EarliestIsEarlier` | example/ipfragreass/odp_ipfragreass_reassemble.c:67-79 | The earlier of two times is found also after 32-bit wrap-around, for times at most the tolerance ahead of now and less than 2^32 ticks before that. |
| `FragOrder.Receive` | example/ipfragreass/odp_ipfragreass_ip.h:150-249 | Offset, "more fragments" flag and payload length of a fragment, from the header bytes they are in, within the bounds of the header format; the reassembled length bound is that of the header. |
| `FragOrder.FlowComparisons` | example/ipfragreass/odp_ipfragreass_reassemble.c:26-56 | Two received packets are of one flow exactly if bytes 12-19, 4-5 and 9 agree, and the first is of a later flow exactly if its addresses are greater by the first byte that differs, or its identification as the host reads it, or its protocol. |
| `IpHeader.FlowBytes` | example/ipfragreass/odp_ipfragreass_reassemble.c:26-36 | The flow of a packet is determined by bytes 4-5, 9 and 12-19, and determines them. |
| `IpHeader.AddrsOrder` | example/ipfragreass/odp_ipfragreass_reassemble.c:51-53 | The order of the addresses is that of the first byte that differs, among bytes 12-19. |
| `IpHeader.FieldPlaces` | example/ipfragreass/odp_ipfragreass_ip.h:50-153 | The bytes and bits of header length, total length, flag and offset. |
| `FragSort.SortPermutes` | example/ipfragreass/odp_ipfragreass_reassemble.c:345-370 | Sorting permutes, whatever the flows are. |
| `FragSort.SortSorts` | example/ipfragreass/odp_ipfragreass_reassemble.c:345-370 | Non-overlapping fragments of ordered flows come out in descending order. |
| `FragSort.SortedContiguous` | example/ipfragreass/odp_ipfragreass_reassemble.c:345-370 | In a sorted list the fragments of a flow are adjacent. |
| `FragExtract.ExtractSound` | example/ipfragreass/odp_ipfragreass_reassemble.c:168-281 | Extraction cuts a complete datagram out of the list, a maximal run of one flow, from the tail or from the middle, and keeps the order of the rest. |
| `FragExtract.ExtractConserves` | example/ipfragreass/odp_ipfragreass_reassemble.c:168-281 | Datagram and rest are together exactly the list. |
| `FragExtract.ExtractExact` | example/ipfragreass/odp_ipfragreass_reassemble.c:168-281 | A sorted list yields a datagram if and only if it holds one. |
| `FragExtract.SortExtractExact` | example/ipfragreass/odp_ipfragreass_reassemble.c:168-370 | Sorting and extracting yields a datagram if and only if the fragments contain one. |
| `FragExtract.WithoutSorted` | example/ipfragreass/odp_ipfragreass_reassemble.c:473-485 | What remains is sorted, so extraction can be repeated without sorting again. |
| `FragExtract.CompleteIsDatagram` | example/ipfragreass/odp_ipfragreass_reassemble.c:182-257 | The walk through a run accepts it if and only if it is gap-free from offset zero to a fragment without "more fragments", and no fragment at the same offset as the last one has that flag. |
| `FragExtract.PayloadComplete` | example/ipfragreass/odp_ipfragreass_reassemble.c:182-257 | If all fragments have payload, the walk accepts a run if and only if it is a complete datagram. |
| `FragList.SortFraglist` | example/ipfragreass/odp_ipfragreass_reassemble.c:345-370 | The in-place insertion sort relinks the records of a chain to the sorted list: same records, fragments equal to the sort of values, chain intact. |
| `FragList.InsertRecord` | example/ipfragreass/odp_ipfragreass_reassemble.c:350-367 | One insertion into a chain. |
| `FragList.ExtractCompletePacket` | example/ipfragreass/odp_ipfragreass_reassemble.c:168-281 | In place: without a complete datagram the chain stays as it is; else datagram and rest become two chains equal to the extraction on values. |
| `FragList.CutRun` | example/ipfragreass/odp_ipfragreass_reassemble.c:215-229 | Cutting a run out of the middle of a chain by relinking its neighbours. |
| `FragList.ScanRun` | example/ipfragreass/odp_ipfragreass_reassemble.c:182-257 | The walk through one flow decides completeness. |
| `FragList.SkipRun` | example/ipfragreass/odp_ipfragreass_reassemble.c:269-276 | The walk to the next flow. |
| `AddFraglist.AddFraglistToFraglist` | example/ipfragreass/odp_ipfragreass_reassemble.c:384-544 | The retry loop on records in memory, without interference: it terminates (remaining fragments, then the flag), conserves the fragments, sends the glued bytes of complete datagrams only, keeps the summary, which stays exact as long as nothing is sent, and leaves no complete datagram in the bucket. |
| `AddFraglist.SendComplete` | example/ipfragreass/odp_ipfragreass_reassemble.c:473-485 | All complete datagrams are cut out and sent; what remains yields none. |
| `AddFraglist.RecountChain` | example/ipfragreass/odp_ipfragreass_reassemble.c:516-535 | The recount adds every fragment of the chain to the summary and finds its head. |
| `AddFraglist.WriteBack` | example/ipfragreass/odp_ipfragreass_reassemble.c:504-542 | The summary written back: as it was, or, if something was cut out, with every remaining fragment counted on top; it still covers the remaining fragments. |
| `AddFraglist.JoinChains` | example/ipfragreass/odp_ipfragreass_reassemble.c:412-414 | Linking the head of a private chain to the tail of the bucket joins the two chains. |
| `AddFraglist.TakeRound` | example/ipfragreass/odp_ipfragreass_reassemble.c:455-543 | One attempt at reassembly: the fragments left are fewer, or reassembly is not tried again. |
| `AddFraglist.PublishComplete` | example/ipfragreass/odp_ipfragreass_reassemble.c:434-441 | Publishing leaves no complete datagram in the bucket. |
| `Fragment.FragmentIpv4Packet` | example/ipfragreass/odp_ipfragreass_fragment.c:13-99 | A packet with at most 1480 bytes of payload is refused; any other is cut into fragments: fragment i has bytes 1480i up to 1480(i + 1) of the payload, the last one the rest, with header copied, length, offset and flag rewritten; the words of every fragment header sum up to minus zero, as a receiver checks. |
| `Fragment.Piece` | example/ipfragreass/odp_ipfragreass_fragment.c:71-88 | Fields of the i-th fragment: length, offset, "more fragments" exactly if payload follows, all other header bytes those of the packet. |
| `Fragment.PieceContent` | example/ipfragreass/odp_ipfragreass_fragment.c:45-70 | A fragment carries its slice of the payload, the upper flag bits and the flow of the packet. |
| `Fragment.RefieldChecksum` | example/ipfragreass/odp_ipfragreass_fragment.c:87-88 | A rewritten header has the checksum of its bytes, and passes the check of a receiver. |
| `Fragment.PieceValid` | example/ipfragreass/odp_ipfragreass_fragment.c:87-88 | Every fragment passes the check of a receiver. |
| `IpHeader.ValidIff` | example/ipfragreass/odp_ipfragreass_fragment.c:87-88 | A header passes the check of a receiver if and only if it holds its checksum, or 65535 where that is zero. |
| `Fragment.RefieldWhole` | example/ipfragreass/odp_ipfragreass_reassemble.c:325-333 | Rewriting the header fields for a whole datagram changes nothing if and only if the packet is canonical. |
| `Glue.SendPacket` | example/ipfragreass/odp_ipfragreass_reassemble.c:292-337 | Working backwards through a chain joins the payloads under the header of the foremost fragment and repairs the header, which then passes the check of a receiver. |
| `Glue.GluedIs` | example/ipfragreass/odp_ipfragreass_reassemble.c:292-337 | What is glued from any received fragments: all payloads, foremost first, under the header of the foremost fragment, with only length, flag, offset and checksum rewritten. |
| `Glue.GluedFragments` | example/ipfragreass/odp_ipfragreass_reassemble.c:292-337 | Gluing the fragments of a packet gives the packet with its header fields rewritten for a whole datagram. |
| `Glue.RoundTrip` | example/ipfragreass/odp_ipfragreass_reassemble.c:292-337 | Fragmenting and gluing restores a packet byte for byte if and only if it is canonical. |
| `IpHeader.SetMoreFragments` | example/ipfragreass/odp_ipfragreass_ip.h:123-129 | Sets the flag and changes no other bit of the header. |
| `IpHeader.SetOffset` | example/ipfragreass/odp_ipfragreass_ip.h:161-166 | Sets the offset and changes no other bit of the header. |
| `IpHeader.PayloadOct` | example/ipfragreass/odp_ipfragreass_ip.h:191-194 | Payload length in eight-byte units, rounded up. |
| `OnesComplement.ByteOrderIndependence` | helper/chksum.c:253-263 | Storing the checksum computed on a host of either byte order writes the same two bytes (section 2 of RFC 1071). |
| `L4Checksum.HostsAgree` | helper/chksum.c:265-353 | For every packet and every segmentation, hosts of both byte orders generate the same bytes and come to the same verdict. |
| `OnesComplement.FoldOtherOrder` | helper/chksum.c:253-263 | Folding the sum of byte-swapped words equals the byte swap of folding the sum. |
| `OnesComplement.TwoCarriesSuffice` | helper/chksum.c:322-331 | From any 32-bit sum two carry rounds reach a 16-bit value, and it is the one's complement sum. |
| `OnesComplement.TwoCarriesNotAlways` | helper/chksum.c:322-331 | The bound on the sum is needed: there is a larger one for which two rounds do not suffice. |
| `SegmentSum.SumAligned` | helper/chksum.c:53-75 | The unrolled loop and the loop behind it sum all words of a segment. |
| `SegmentSum.DataSegSum` | helper/chksum.c:32-90 | The sum of one segment with an odd byte carried in, and the odd byte carried out. |
| `SegmentSum.SumSegments` | helper/chksum.c:295-320 | For every split of the data into non-empty segments the sum is that of the contiguous bytes, except an odd last byte strictly inside a segment, and it does not overflow 32 bits for lengths below 64K. |
| `L4Checksum.SegmentedIsFlat` | helper/chksum.c:295-331 | The checksum equals that of RFC 1071 over pseudo-header and data, of the length the headers announce, if and only if the length is even, or the data ends at a segment end, or the odd last byte is zero. |
| `L4Checksum.PseudoIsRfc` | helper/chksum.c:176-251 | The bytes summed for the pseudo-header have the sum of the pseudo-header of RFC 768 and RFC 9293 (IPv4) or of section 8.1 of RFC 8200 (IPv6), built from the header. |
| `L4Checksum.OddByteExample` | helper/chksum.c:295-331 | A UDP packet of nine bytes in a segment of ten, whose checksum is not the flat one. |
| `L4Checksum.Packet.PseudoSum` | helper/chksum.c:176-251 | The pseudo-header sum, for IPv4 and IPv6. |
| `L4Checksum.Packet.Compute` | helper/chksum.c:295-331 | The checksum of the packet for every segmentation. |
| `L4Checksum.Packet.UdpTcpChksum` | helper/chksum.c:265-353 | Generate, verify and return, with the error results: generate writes bytes 6-7 (UDP) or 16-17 (TCP) and nothing else; verify changes nothing, gives 1 without a sum for UDP with bytes 6 and 7 zero, and else compares. |
| `L4Checksum.GenerateThenVerify` | helper/chksum.c:334-347 | Generate then verify, also with the field split across segments: TCP gives 0; UDP gives 0 except exactly when the sum of all words is a positive multiple of 65535, where it gives 1. The words of a generated packet sum up to minus zero. |
| `L4Checksum.ZeroChecksumExample` | helper/chksum.c:334-347 | A UDP packet of ten bytes whose generated checksum does not verify. |
| `L4Checksum.WordChangeDetected` | helper/chksum.c:340-345 | A changed word in a packet that verifies is always detected, except a change between the two zeros 0 and 65535. |
| `IncrementalChecksum.UpdateChksum` | example/ping/odp_ping.c:534-544 | The fold loop ends with the one's complement of the folded sum. |
| `IncrementalChecksum.UpdateIsRecompute` | example/ping/odp_ping.c:534-544 | Updating the checksum for one changed word equals recomputing it if and only if the new data is not all zero (section 3 of RFC 1624). |
| `IncrementalChecksum.ZeroedExample` | example/ping/odp_ping.c:534-544 | Data that becomes all zero, for which updating and recomputing differ. |
| `IncrementalChecksum.Header.DecTtlCsumUpdate` | example/l3fwd/odp_l3fwd.c:183-192 | The in-place update of TTL and checksum, on both byte orders: a current checksum stays current if and only if the TTL was not zero. |
| `IncrementalChecksum.DecTtlKeepsChecksum` | example/l3fwd/odp_l3fwd.c:183-192 | A current header checksum stays current under the TTL decrement if and only if the TTL was not zero. |
| `IncrementalChecksum.WrappedTtl` | example/l3fwd/odp_l3fwd.c:183-192 | For a TTL that wraps from 0 to 255 the updated checksum is wrong for every header. |
| `SctpChecksum.Packet.Crc32c` | helper/chksum.c:355-378 | The CRC folded segment by segment is that of the contiguous range. |
| `SctpChecksum.CrcFold` | helper/chksum.c:371 | The CRC is the byte step folded over the bytes, first to last. |
| `SctpChecksum.Packet.ChksumSet` | helper/chksum.c:380-403 | Stores in bytes 8-11, and changes no other byte, the complement of the CRC of the data with these bytes zero, from all ones. |
| `SctpChecksum.Packet.ChksumVerify` | helper/chksum.c:405-427 | Gives 0 exactly if bytes 8-11 hold that value. |
| `SctpChecksum.SetThenVerify` | helper/chksum.c:380-427 | Set then verify gives 0 for every packet, segmentation and byte order (section 6.8 of RFC 9260). |
| `SctpChecksum.StoredVerdict` | helper/chksum.c:405-427 | Of all values that can be stored in the field only the checksum of the packet verifies. |
| `DmaOrder.StartInOrder` | platform/linux-dpdk/odp_dma.c:837-841 | A started transfer joins the in-flight list at its end, and the index map stays right for all outstanding ring indices although indices wrap at 2^16. |
| `DmaOrder.CompleteInOrder` | platform/linux-dpdk/odp_dma.c:626-638 | The transfer found under the next outstanding ring index is the oldest pending one. |
| `DmaOrder.RemoveInOrder` | platform/linux-dpdk/odp_dma.c:723-728 | Removing a completed transfer keeps the list a completed block followed by the pending ones in start order. |
| `DmaOrder.ScanKeepsOrder` | platform/linux-dpdk/odp_dma.c:730-762 | Events reported on a queue and those that stay are those that were there, in start order; other queues lose nothing. |
| `DmaOrder.ScanComplete` | platform/linux-dpdk/odp_dma.c:730-762 | Only completed events of the queue are reported, no more than asked for; with room left none stays behind, and no completed transfer without completion report. |
| `DmaOrder.PollExact` | platform/linux-dpdk/odp_dma.c:880-909 | Polling reports the status of the transfer and removes it exactly if it is completed. |
| `DmaOrder.PollMissing` | platform/linux-dpdk/odp_dma.c:880-909 | A poll for a transfer that is not in flight gives 0 exactly if the session is ordered and some transfer is pending, and else -1. |
| `DmaOrder.PollKeeps` | platform/linux-dpdk/odp_dma.c:880-909 | Polling takes no other transfer out of the list, except completed ones without completion report, and of these all in front of the polled one. |
| `DmaOrder.ScanMembers` | platform/linux-dpdk/odp_dma.c:730-762 | A scan for events takes only those it reports and completed transfers without completion report out of the list. |
| `DmaOrder.DoneInOrder` | platform/linux-dpdk/odp_dma.c:880-909 | A transfer is reported done only when all transfers started before it are completed. |
| `DmaOrder.DeliveredInStartOrder` | platform/linux-dpdk/odp_dma.c:723-777 | At any moment the events delivered on a queue, with their user pointers, are the first ones started for it, and all of them exactly when none is in flight. |
| `DmaSession.Session.TransferStart` | platform/linux-dpdk/odp_dma.c:779-841 | Start in all modes, with the error results; the event and user pointer of a started transfer are added to the history of its queue, and a failed start leaves everything as it was. |
| `DmaSession.Session.DequeueTrs` | platform/linux-dpdk/odp_dma.c:614-642 | Each completion marks its own transfer, once; afterwards exactly the transfers the device has completed are marked. |
| `DmaSession.Session.GetOrderedEvs` | platform/linux-dpdk/odp_dma.c:730-762 | The loop that removes entries while walking the list: each event returned carries the success flag and the user pointer of its transfer, and the events are added to the deliveries of the queue in the order they are returned. |
| `DmaSession.Session.GetOrderedPolled` | platform/linux-dpdk/odp_dma.c:880-909 | The same for polling. |
| `DmaSession.Session.TransferDone` | platform/linux-dpdk/odp_dma.c:911-935 | The answer for a transfer in flight is its status, -1, 0 or 1, with its user pointer, positive only after all earlier ones are completed; for one that is not in flight it is -1, or 0 if the session is ordered and some transfer is pending. |
| `DmaSession.Session.DequeueEvs` | platform/linux-dpdk/odp_dma.c:764-777 | Events of one queue, each successful and with the user pointer it was started with, added to the history of deliveries in the order returned; no other transfer leaves the list except completed ones without completion report, and a locked session is left as it is. |
| `DmaSession.Session.TransferIdAlloc` | platform/linux-dpdk/odp_dma.c:937-951 | IDs move from the stash to the user. |
| `DmaSession.Session.TransferIdFree` | platform/linux-dpdk/odp_dma.c:953-966 | ... and back; an ID that is freed was not in the stash. |
| `DmaSession.Session.FreeOrdEntry` | platform/linux-dpdk/odp_dma.c:723-728 | A removed entry is freed once. |
| `EventdevSched.Eventdev.LinkPort` | platform/linux-dpdk/odp_schedule_eventdev.c:54-79 | A port that is not in use is linked only if it is to be taken into use. |
| `EventdevSched.Eventdev.ResumeScheduling` | platform/linux-dpdk/odp_schedule_eventdev.c:118-163 | The port gets the queues of all groups in use that contain the thread. |
| `EventdevSched.Eventdev.CheckLinked` | platform/linux-dpdk/odp_schedule_eventdev.c:634-641 | A thread that has not paused is linked to all its queues before it asks for events; one that has paused stays unlinked. |
| `EventdevSched.Eventdev.LinkThreads` | platform/linux-dpdk/odp_schedule_eventdev.c:184-206 | Ports of exactly the given threads change. |
| `EventdevSched.Eventdev.CreateQueue` | platform/linux-dpdk/odp_schedule_eventdev.c:367-395 | Keeps every port in use linked to exactly the queues of the groups of its thread. |
| `EventdevSched.Eventdev.DestroyQueue` | platform/linux-dpdk/odp_schedule_eventdev.c:397-417 | Keeps it; afterwards no port is linked to the queue. |
| `EventdevSched.Eventdev.GroupJoin` | platform/linux-dpdk/odp_schedule_eventdev.c:888-914 | Keeps it, for any mask, also with threads that are members already. |
| `EventdevSched.Eventdev.GroupLeave` | platform/linux-dpdk/odp_schedule_eventdev.c:916-943 | Keeps it, for any mask. |
| `EventdevSched.Eventdev.Pause` | platform/linux-dpdk/odp_schedule_eventdev.c:713-720 | Keeps it; the port is out of use, other threads and ports are not touched. |
| `EventdevSched.Eventdev.Resume` | platform/linux-dpdk/odp_schedule_eventdev.c:722-728 | Keeps it; the port serves all queues of its thread, other threads and ports are not touched. |
| `EventdevSched.Eventdev.ThrRem` | platform/linux-dpdk/odp_schedule_eventdev.c:771-794 | Keeps it; the port of the thread is out of use, other ports are not touched. |
| `EventdevSched.Eventdev.ThrAdd` | platform/linux-dpdk/odp_schedule_eventdev.c:750-769 | Keeps it if and only if the port of the thread is not in use, or the thread was a member already, or the group has no queue. |
| `EventdevSched.ThrAddMisses` | platform/linux-dpdk/odp_schedule_eventdev.c:750-769 | Calls from the start that end with a thread in use whose port lacks the queue of a group it was added to. |
| `EventdevSched.Eventdev.GroupCreate` | platform/linux-dpdk/odp_schedule_eventdev.c:811-837 | Takes the first free place, and keeps it if and only if that place has no queue left or no port in use is in the mask. |
| `EventdevSched.GroupCreateMisses` | platform/linux-dpdk/odp_schedule_eventdev.c:811-837 | Calls from the start that end with a new group in the place of a destroyed one, whose queue its thread is not linked to. |
| `EventdevSched.Eventdev.GroupDestroy` | platform/linux-dpdk/odp_schedule_eventdev.c:846-868 | Keeps it if and only if the group has no queue or none of its threads has a port in use. |
| `EventdevSched.GroupDestroyLeaves` | platform/linux-dpdk/odp_schedule_eventdev.c:846-868 | Calls from the start that end with a thread linked to the queue of a group that is gone. |
| `EventdevLinks.QueueAdded` | platform/linux-dpdk/odp_schedule_eventdev.c:367-395 | The link invariant for one port when a queue is added. |
| `EventdevLinks.QueueRemoved` | platform/linux-dpdk/odp_schedule_eventdev.c:397-417 | ... removed. |
| `EventdevLinks.Joined` | platform/linux-dpdk/odp_schedule_eventdev.c:888-914 | ... when threads join a group. |
| `EventdevLinks.Left` | platform/linux-dpdk/odp_schedule_eventdev.c:916-943 | ... when threads leave. |
| `EventdevCache.Local.Schedule` | platform/linux-dpdk/odp_schedule_eventdev.c:620-682 | Over all calls every event fetched from the device is delivered exactly once, in order for its queue and kind; each call returns events of one queue, packets last, and no fewer than asked for unless the next event is of another queue or there is none. |
| `EventdevCache.Local.EventInput` | platform/linux-dpdk/odp_schedule_eventdev.c:539-594 | The events up to the first one of another queue are returned, those that are no packets first, and the rest is cached. |
| `EventdevCache.Local.InputCached` | platform/linux-dpdk/odp_schedule_eventdev.c:597-618 | Consecutive events of one queue come from the cache, as many as there are up to the number asked for. |
| `EventdevClassify.ClassifyPkts` | platform/linux-dpdk/odp_schedule_eventdev.c:469-537 | Packets without destination are moved to the front in order; every other packet is offered, one call for each run of equal destinations, to the queue it was classified to: the first ones of the run, as many as the queue takes, go to its end in input order, the others are freed. Every packet a queue gains was classified to it. |
| `EventdevClassify.BatchConserved` | platform/linux-dpdk/odp_schedule_eventdev.c:469-537 | Every packet of a batch ends up exactly once, and those a queue gained are the ones classified to it that were not freed, in order. |
| `EventdevClassify.SplitBatch` | platform/linux-dpdk/odp_schedule_eventdev.c:486-513 | The batch is split in place, and runs of equal destination are recorded. |
| `FlowCacheRun.AnswersAgree` | example/l3fwd/odp_l3fwd_db.c:474-508 | In every interleaving of lookups and inserts by any number of threads, including duplicate inserts and a full store, every answer is the first matching route of the list, for any hash function. |
| `FlowCacheRun.WalkChain` | example/l3fwd/odp_l3fwd_db.c:264-276 | Following the links from a bucket, over at most as many slots as there are, finds the first slot of its chain with the key. |
| `FlowCacheRun.StepGood` | example/l3fwd/odp_l3fwd_db.c:238-302 | Every step keeps the chains in memory right, and slots taken by different threads apart. |
| `FlowTable.Cache.FindFwdDbEntry` | example/l3fwd/odp_l3fwd_db.c:474-508 | The answer is that of the linear scan, from the cache or not; what was not in the cache is put there unless there is no route or no room. |
| `FlowTable.Cache.LookupFwdCache` | example/l3fwd/odp_l3fwd_db.c:264-276 | The walk through a bucket finds a flow exactly if the cache holds one with the key. |
| `FlowTable.Cache.InsertFwdCache` | example/l3fwd/odp_l3fwd_db.c:279-302 | One more flow, or none if the store is full. |
| `FlowTable.Cache.InitFwdHashCache` | example/l3fwd/odp_l3fwd_db.c:304-338 | The cache is filled with the hosts of all routes up to the first one already there. |
| `L3fwdRoutes.WarmRight` | example/l3fwd/odp_l3fwd_db.c:304-338 | With canonical subnets every flow put into the cache leads to the first matching route. |
| `L3fwdRoutes.WarmedAll` | example/l3fwd/odp_l3fwd_db.c:304-338 | With canonical subnets that share no host, and room for all, the cache is filled with exactly the hosts of all subnets. |
| `L3fwdRoutes.WarmedRightIff` | example/l3fwd/odp_l3fwd_db.c:304-338 | For every table and size of the store, the cache starts out right if and only if all subnets are canonical, or filling ends before the first one that is not: two subnets before it share a host, its address is a host of one of them, or their hosts fill the store. |
| `L3fwdRoutes.OddExample` | example/l3fwd/odp_l3fwd_db.c:304-338 | A table of one subnet that is not canonical, with which the cache starts out wrong. |
| `L3fwdRoutes.MatchesHosts` | example/l3fwd/odp_l3fwd_db.c:497-503 | A canonical subnet matches exactly its hosts. |
| `L3fwdRoutes.MatchesBits` | example/l3fwd/odp_l3fwd_db.c:497-503 | A subnet matches exactly the addresses whose bits, with those beyond the prefix cleared, are its own. |
| `L3fwdRoutes.NonCanonicalMatchesNothing` | example/l3fwd/odp_l3fwd_db.c:497-503 | A subnet with bits beyond its prefix matches no address, although the cache is filled with its hosts. |
| `LpmRoutes.TrieRefines` | example/l3fwd/odp_l3fwd_lpm.c:174-230 | After any insertions of disjoint prefixes of 16, 20, 24, 28 or 32 bits, with room for the tables, a lookup returns the port of the prefix that covers the address, and nothing if there is none. |
| `LpmRoutes.SinglePrefixRight` | example/l3fwd/odp_l3fwd_lpm.c:129-137 | A single prefix is looked up right, for all addresses, if and only if its length is 16, 20, 24, 28 or 32. |
| `LpmRoutes.TargetExact` | example/l3fwd/odp_l3fwd_lpm.c:122-133 | The node a prefix is put at covers exactly its addresses if and only if it ends at a level boundary. |
| `LpmRoutes.BuildRight` | example/l3fwd/odp_l3fwd_lpm.c:101-230 | After any insertions of prefixes of 16, 20, 24, 28 or 32 bits, overlapping or not, each of which finds the trie in order (see Clean), a lookup returns for every address what a linear search for the longest match returns. |
| `LpmRoutes.SequenceRightIff` | example/l3fwd/odp_l3fwd_lpm.c:101-230 | For a list of such prefixes with different ports, all answers are right after every insertion if and only if every insertion is clean: no node above the new prefix holds a next hop, and each of its addresses has a longer match or no longer prefix below the level the update reaches. |
| `LpmRoutes.OrderFree` | example/l3fwd/odp_l3fwd_lpm.c:174-208 | Clean insertions of the same routes in different orders yield the same trie. |
| `LpmRoutes.NestedPairIff` | example/l3fwd/odp_l3fwd_lpm.c:101-208 | Of two nested prefixes, the shorter one first is never clean; the longer one first is clean if and only if it is at most one level longer, or the shorter one has 16 bits and the longer one at most 28. |
| `LpmRoutes.BestIsLinear` | example/l3fwd/odp_l3fwd_lpm.c:210-230 | The longest match among the positions of a list of prefixes is what the linear search finds. |
| `LpmRoutes.LinearIs` | example/l3fwd/odp_l3fwd_lpm.c:19-29 | The linear search finds the longest match, and the last one of equally long ones, whenever there is a match. |
| `LpmInsert.InsertRightIff` | example/l3fwd/odp_l3fwd_lpm.c:101-208 | The exact condition for one insertion, of any prefix length, into the trie of any set of routes, also nested ones, which count for the node they are put at: afterwards every address gets its longest match if and only if either no node above the new route holds a next hop, and every address below it has a longer match, or already gets the new port, or has no route below the level the update reaches; or the node holds a longer prefix already, which is overwritten only by the same port. |
| `LpmInsert.InsertAloneIff` | example/l3fwd/odp_l3fwd_lpm.c:101-208 | ... and if no route was below another: if and only if no route is above the new one, and each of its addresses is covered already or has no route below its node at the level the update reaches (one level down; from the first level, down to the fourth of the five). |
| `LpmInsert.AnswerAfter` | example/l3fwd/odp_l3fwd_lpm.c:174-230 | What every single address is answered after any insertion below no next hop. |
| `LpmInsert.NestedLost` | example/l3fwd/odp_l3fwd_lpm.c:108-121 | Inserting a longer prefix below a node with a next hop makes it disappear for all addresses that take another way. |
| `LpmInsert.InsertAdds` | example/l3fwd/odp_l3fwd_lpm.c:101-208 | An insertion that is right whatever the ports turns the trie of the routes into the trie of the routes with the new one; of two routes at one node the longer one counts. |
| `LpmInsert.OutrankedSame` | example/l3fwd/odp_l3fwd_lpm.c:76-98 | Inserting a prefix at a node that holds a longer one changes nothing, unless the node is of the first level and has no table. |
| `LpmRoutes.ShorterOverwrites` | example/l3fwd/odp_l3fwd_lpm.c:184-190 | At such a node the shorter prefix takes over all addresses of the longer one. |
| `LpmLongest.LookupBest` | example/l3fwd/odp_l3fwd_lpm.c:210-230 | The trie of a set of routes answers every address with its longest match, and with nothing exactly if there is none. |
| `LpmLongest.LongestIs` | example/l3fwd/odp_l3fwd_lpm.c:210-230 | The longest match is the deepest route on the way of the address. |
| `LpmLongest.OneTrie` | example/l3fwd/odp_l3fwd_lpm.c:32-55 | A set of routes has one trie only. |
| `LpmArena.Fib.FibTblInsert` | example/l3fwd/odp_l3fwd_lpm.c:174-208 | Insertion in the arena does what insertion on values does, for every prefix length. |
| `LpmArena.Fib.FibInsertNode` | example/l3fwd/odp_l3fwd_lpm.c:101-138 | ... below a node, also when the arena is exhausted. |
| `LpmArena.Fib.FibUpdateNode` | example/l3fwd/odp_l3fwd_lpm.c:76-99 | The update of a node or of the nodes of its table. |
| `LpmArena.Fib.FibAllocSub` | example/l3fwd/odp_l3fwd_lpm.c:57-74 | A table that was not in use; exactly the nodes from its beginning on, as many as lie before it, are cleared, and nothing in use. |
| `LpmArena.ClearsInside` | example/l3fwd/odp_l3fwd_lpm.c:63-70 | The clearing loop for the next table stays inside an arena of any length if and only if the length is at least 32 times the number of tables taken, that one included. |
| `LpmArena.ReservedTables` | example/l3fwd/odp_l3fwd_lpm.c:155 | With nodes of 16 bytes the reserved bytes allow for 512 of the 16384 tables, which is enough for a full route database. |
| `LpmArena.Fib.FibTblLookup` | example/l3fwd/odp_l3fwd_lpm.c:210-230 | The lookup loop terminates and agrees with the trie of values. |
| `LpmArena.Fib.LoadRoutes` | example/l3fwd/odp_l3fwd.c:166-170 | Inserting a list of prefixes; four tables of room per prefix suffice. |
| `LpmArena.SetUp` | example/l3fwd/odp_l3fwd.c:164-170 | For every database of at most 32 routes no node outside the reserved arena is written, and if all prefixes end at a level boundary and all insertions are clean every address gets the longest match. |
| `LpmArena.ExpandRep` | example/l3fwd/odp_l3fwd_lpm.c:108-121 | Tables stay disjoint when a node gets a new one. |
| `L3fwdBurst.Worker.Burst` | example/l3fwd/odp_l3fwd.c:344-375 | One burst: counters, drops and transmissions; each surviving packet is forwarded exactly once, with one hop more and the same identity and destination, and offered once, to the port its route gives, one call for each run of equal ports; the first ones of a run, as many as the port takes, are sent in arrival order, the others dropped. |
| `L3fwdBurst.Worker.DropErrPkts` | example/l3fwd/odp_l3fwd.c:269-292 | Bad packets are freed and counted, the others are moved together in order. |
| `L3fwdBurst.Worker.FwdRun` | example/l3fwd/odp_l3fwd.c:359-364 | Packets are forwarded up to and including the first one for another port. |
| `L3fwdBurst.Worker.SendBurst` | example/l3fwd/odp_l3fwd.c:355-374 | The loop over runs, for every pattern of refusals. |
| `L3fwdBurst.BurstConserved` | example/l3fwd/odp_l3fwd.c:344-375 | Received packets are rx drops, tx drops and transmitted packets. |

## Left out

- C memory ordering: all steps on shared words are sequentially consistent.
- Packet split, concat, extend and copy in the packet pool, and their failures: packets are byte sequences.
- The staleness test of garbage collection: any flow may be kept or freed at any time, with any arrival time written back.
- The hash functions: they are parameters, and results hold for all of them.
- Overlapping or duplicate fragments: where the code asserts that they do not occur the model goes on with the break that follows; completeness is claimed for fragments that do not overlap.
- Fragments without payload: conservation covers them, completeness does not.
- SctpChecksum.Crc: the CRC32c polynomial is not modelled; the byte step is a parameter, and results hold for every byte fold.
- Packets without a usable network or transport header: only the error results of the checksum operations are modelled.
- The DMA error path, destruction of sessions, the synchronous transfer and the loop that waits for the event of a transfer just started: they rest on the driver or on the device making progress.
- DmaSession.Device: the driver is modelled as a device that completes jobs in order and gives them consecutive ring indices.
- Failures of the event device when ports are linked or unlinked, and link priorities.
- EventdevCache.Local.EventInput: classification is off and input processing drops nothing; classification is modelled on its own.
- Timers and waiting in the scheduling loop.
- Routes of depth 0 and 32 in the hash mode of the forwarder: the shift in the mask is not defined in C.
- LpmArena.Fib.FibAllocSub: what happens when a node beyond the arena is written is not defined in C; the operations require that the next tables fit, which is exact for the clearing loop.
- LpmRoutes.SequenceRightIff: for lists in which a port occurs twice only one insertion at a time is decided, by LpmInsert.InsertRightIff, because a wrong node may hold the right port.
- MAC rewriting, address parsing, statistics output, command lines and thread set-up.
- Crypto, machine learning, IPsec, classification rules, traffic management and timer examples: mostly calls into drivers.
