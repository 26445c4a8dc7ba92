# dpdk-flow-analyzer: a verified model of the flow tracker

dpdk-flow-analyzer receives bursts of Ethernet frames from one DPDK port. It
reads each frame as an IPv6 datagram and builds a flow key for it: source
and destination address, source and destination port, and Next Header
protocol. It counts packets and bytes per flow in a fixed table of
`MAX_FLOWS` = 1024 slots, with an `rte_hash` index from keys to slot
numbers. Every 10 seconds it sweeps the table and evicts flows that have
been idle for more than 5 seconds. This project models that core in Dafny
and proves properties of the model.

The modules follow the program's structure:

- `Fixed` (Fixed.dfy) holds the C fixed-width integers.
  - `uint64_t` addition, subtraction and multiplication wrap modulo 2^64.
  - Ports are read in network byte order.
- `Flow` (Flow.dfy) holds the two records of `src/flow.h`.
  - `struct flow6_key` becomes `FlowKey`, with its packed 37-byte memory layout.
  - `struct flow_stats` becomes `FlowStats`.
- `Classifier` (Classifier.dfy) is the pure decision a frame goes through: drop it, or build its key.
  - `ClassifyWith(g, f)` takes the length guard `g` as a parameter.
  - `ClassifyAsWritten` uses the guard `AsWritten`: the code as written, which compares `data_len` with 34.
  - `Classify` uses the guard `Corrected`: the evident intent, 62 bytes for UDP and 74 for TCP (see Findings).
  - The burst model takes the guard as a parameter too, and every property of it is proved for both guards. With `AsWritten` it is the program as written.
- `HashIndex` (HashIndex.dfy) is the `rte_hash` index, as a class `FlowIndex` that is updated in place.
  - It holds a map from keys to positions and a FIFO ring of free positions.
  - Adding a key fails only when all `MAX_FLOWS` positions are in use.
- `Table` (Table.dfy) is the flow table: the slot array `flow_stats[MAX_FLOWS]` together with the index.
  - The class `FlowTable` keeps the slots in an `array` and the index in a `FlowIndex`.
  - Its methods are the per-packet update and `age_flows`.
  - Each method is proved equal to a function on the whole state (`TableState`). Lemmas state the properties of those functions.
  - The central invariant `Inv` is a 1:1 correspondence: the index maps key k to slot i exactly when slot i is valid and holds k.
- `Analyzer` (Analyzer.dfy) is the body of the receive loop for one burst, as a class `FlowAnalyzer`.
  - It classifies, updates and frees each frame, counts `total_rx`, and runs the sweep when it is due.

The clock and the TSC frequency are parameters:

- `tsc`: one stamp per processed frame, the `rte_rdtsc` of lines 271 and 281.
- `now`: the `rte_rdtsc` of line 289.
- `ageNow`: the sweep's own clock reading, line 44.
- `hz`: `rte_get_tsc_hz()`.

Because `uint64_t` wrap-around is modelled explicitly, the model makes no assumption that the clock has advanced past a flow's last-seen stamp.

The sweep trigger is modelled as written. It is checked only after a non-empty burst (line 175), so a silent link never sweeps (`Analyzer.EmptyBurstIsIdle`).

## Model

| member | source | states |
|---|---|---|
| Fixed.Add64 | src/main.c:269-270 | `packets++` and `bytes += pkt_len` on `uint64_t`: the sum reduced modulo 2^64 |
| Fixed.Sub64 | src/main.c:51 | `now - last_seen_tsc` on `uint64_t`: the difference modulo 2^64; adding back the subtrahend wraps to `now`; it is the plain difference when `now >= last_seen_tsc` |
| Fixed.Mul64 | src/main.c:161-162 | `FLOW_TIMEOUT_SEC * hz` and `AGING_INTERVAL_SEC * hz` as `uint64_t` products: the product modulo 2^64, which is the exact product when it fits in 64 bits |
| Fixed.Div | src/main.c:57 | `idle_sec = diff / hz` is the quotient rounded down: `q*hz <= diff < q*hz + hz` |
| Fixed.Wrap64IsMod | src/main.c:269-270 | wrapping a count to 64 bits is reduction modulo 2^64 |
| Fixed.Add64OfWrap64 | src/main.c:269-270 | adding to a counter that has already wrapped gives the wrapped total |
| Fixed.BigEndian16RoundTrip | src/main.c:240-241 | `rte_be_to_cpu_16` of a port written in network order gives the port back |
| Fixed.BigEndian16Injective | src/main.c:246-247 | two byte pairs read as the same big-endian port are the same pair |
| Flow.KeyBytes | src/flow.h:6-12 | the packed key occupies exactly `sizeof(struct flow6_key)` = 37 bytes |
| Flow.KeyBytesRoundTrip | src/flow.h:6-12 | decoding the packed in-memory bytes of a key gives the key back: the layout loses no field |
| Flow.KeyBytesEqualIff | src/main.c:149 | byte-wise comparison of `key_len` = 37 bytes is exact: two keys have the same bytes iff all five fields are equal |
| Flow.ReversedIsDistinct | src/flow.h:6-11 | swapping source and destination gives a different key unless both endpoints coincide; swapping twice restores the key |
| Classifier.KeyOf | src/main.c:234-258 | the key holds Next Header (byte 20), the source address (bytes 22..37) and the destination address (bytes 38..53); for TCP and UDP the ports are the big-endian bytes 54..55 and 56..57, for any other protocol both ports are 0 |
| Classifier.ClassifyWith | src/main.c:183-258 | whichever length guard is used, an accepted frame's key is `KeyOf` its bytes, its protocol is TCP or UDP, and its `data_len` reaches that guard's minimum, which is at least the Ethernet header |
| Classifier.ClassifyAsWritten | src/main.c:183-258 | the code as written accepts only TCP or UDP frames of at least 34 bytes |
| Classifier.Classify | src/main.c:183-258 | the corrected classifier accepts only TCP or UDP frames that reach the end of their transport header: 54 bytes plus 8 for UDP or 20 for TCP |
| Classifier.AsWrittenDropsIff | src/main.c:185-229 | the code as written drops a frame iff `data_len < 14`, or Next Header is not 6 or 17, or `data_len < 34` |
| Classifier.ClassifyDropsIff | src/main.c:185-229 | the corrected classifier drops iff `data_len < 14`, or Next Header is not 6 or 17, or the frame ends before the UDP (62) or TCP (74) header does |
| Classifier.AcceptedKeyLayout | src/main.c:234-258 | an accepted key is `src_ip` = bytes 22..37, `dst_ip` = 38..53, ports = big-endian bytes 54..55 and 56..57 for TCP and UDP alike, `proto` = byte 20 (6 or 17) |
| Classifier.ClassifyRefinesAsWritten | src/main.c:225-229 | the corrected classifier accepts only frames the code as written accepts, with the same key; the two agree on every frame below 34 or from 74 bytes |
| Classifier.LinkHeaderIgnored | src/main.c:189-210 | MAC addresses and EtherType (bytes 0..13) never affect the verdict or the key |
| Classifier.ClassifyReadsOnlyData | src/main.c:225-248 | with the corrected guard, when one of two frames that agree on their `data_len` bytes is accepted, the other is accepted with the same key |
| Classifier.AsWrittenReadsPastData | src/main.c:225-246 | the code as written accepts a 34-byte UDP frame and takes its ports from bytes 54..57, beyond its data: two frames with identical data get different keys |
| Classifier.EncodeThenClassify | src/main.c:210-258 | round trip: a frame built for a TCP or UDP key (any MACs, any payload) classifies back to that key, in both classifiers |
| HashIndex.EmptyIndexValid | src/main.c:146-158 | the freshly created index is empty with all `MAX_FLOWS` positions free and consistent |
| HashIndex.AddKeepsIndexValid | src/main.c:274 | adding an absent key at the head of the free ring keeps positions distinct, in range and disjoint from the free ring |
| HashIndex.DeleteKeepsIndexValid | src/main.c:65 | deleting a present key returns its position to the ring and keeps the index consistent |
| HashIndex.FullIffNoFree | src/main.c:274-275 | the free ring is empty exactly when `MAX_FLOWS` keys are indexed |
| HashIndex.FlowIndex.constructor | src/main.c:155 | `rte_hash_create`: an empty index with every position free |
| HashIndex.FlowIndex.Lookup | src/main.c:264 | `rte_hash_lookup`: the key's position when present, `-ENOENT` when absent |
| HashIndex.FlowIndex.AddKey | src/main.c:274 | `rte_hash_add_key`: a present key keeps its position; a new key takes the head free position; `-ENOSPC` and no change when full |
| HashIndex.FlowIndex.DelKey | src/main.c:65 | `rte_hash_del_key`: a present key is removed and its position freed; an absent key gives `-ENOENT` and changes nothing |
| Table.EmptyTableInv | src/main.c:32 | the zero-initialised slot array with the empty index satisfies the table invariant |
| Table.InvConsequences | src/main.c:264-282 | under the invariant at most `MAX_FLOWS` flows are live, the live keys are exactly the indexed keys, and no two live slots share a key |
| Table.Bump | src/main.c:268-271 | a hit adds one packet and `pkt_len` bytes, both modulo 2^64, sets last seen to the stamp, and keeps the slot's key and valid byte |
| Table.Seed | src/main.c:276-282 | a seeded record is valid and holds the packet's key |
| Table.UpdateState | src/main.c:264-286 | hit, insert and full miss all preserve the 1:1 invariant |
| Table.InsertPreservesInv | src/main.c:274-282 | seeding the free position the index hands out keeps the table coherent |
| Table.UpdateHit | src/main.c:264-271 | on a hit at slot i only slot i changes: packets +1, bytes + `pkt_len` (mod 2^64), last seen = tsc; the index is untouched |
| Table.UpdateInsert | src/main.c:273-283 | on a miss with room the slot handed out was free and becomes {key, 1, `pkt_len`, tsc, valid 1}; the index gains the key |
| Table.UpdateFull | src/main.c:274-285 | the update fails iff the key is new and `MAX_FLOWS` keys are indexed; then nothing changes |
| Table.LookupAfterUpdate | src/main.c:264-282 | after a hit or insert, looking the key up finds a valid slot holding it |
| Table.UpdateKeepsIndexed | src/main.c:264-286 | a packet never moves or removes an indexed key, adds at most its own, and its key is indexed unless it was new and the table full |
| Table.UpdateAll | src/main.c:264-286 | any run of packets of one flow preserves the invariant |
| Table.UpdateAllHits | src/main.c:264-271 | a run of packets of a tracked flow only hits its slot, which stays at the same position |
| Table.HitsAccumulate | src/main.c:269-271 | after n hits, packets grew by n and bytes by the sum of the lengths, both mod 2^64; last seen is the last stamp; key and valid unchanged |
| Table.Evict | src/main.c:48-67 | a slot not idle beyond the timeout leaves the table unchanged; an expired slot is zeroed, nothing else in the slot array changes, and its key leaves the index |
| Table.Sweep | src/main.c:46-68 | the sweep keeps all `MAX_FLOWS` slots, and the index afterwards is the index before minus exactly the keys of the expired slots |
| Table.EvictPreservesInv | src/main.c:48-68 | one visit of the sweep preserves the invariant |
| Table.AgeUpToSlots | src/main.c:46-68 | after visiting slots 0..n-1, each visited expired slot is all-zero and every other slot is unchanged |
| Table.AgeUpToPositions | src/main.c:46-68 | after visiting slots 0..n-1, the index lost exactly the keys of the visited expired slots |
| Table.AgeUpToPreservesInv | src/main.c:46-68 | a partial sweep preserves the invariant |
| Table.SweepExact | src/main.c:46-68 | after the sweep no valid slot has `now - last_seen > timeout`; each expired slot is zero and its key gone from the index; every other slot is unchanged |
| Table.SweepKeepsSurvivors | src/main.c:46-68 | the sweep preserves the invariant, and a live flow not idle beyond the timeout keeps its slot and index entry |
| Table.EventsUpToStep | src/main.c:48-63 | the sweep's log line for slot n-1 is computed from that slot as it was before the sweep, since earlier visits do not touch it |
| Table.EventsNameEvictedSlots | src/main.c:48-63 | every logged eviction names an expired slot with its protocol, its packet count and `idle_sec` = `(now - last_seen) / hz` (mod 2^64, rounded down); the lines are in strictly increasing slot order, so no slot is logged twice |
| Table.EventsCoverExpiredSlots | src/main.c:48-63 | every expired slot among those visited has a log line naming it |
| Table.FlowTable.constructor | src/main.c:32 | the static zeroed slot array and an empty index |
| Table.FlowTable.Update | src/main.c:264-286 | the in-place lookup, bump or add-and-seed equals `UpdateState` on the whole state and keeps the invariant |
| Table.FlowTable.AgeSlot | src/main.c:48-67 | one loop iteration of `age_flows` equals `Evict` and logs exactly `EvictionLog` |
| Table.FlowTable.AgeFlows | src/main.c:41-70 | `age_flows` over the array equals `Sweep` on the whole state; its log is the events of the visits in slot order |
| Analyzer.FrameStep | src/main.c:183-286 | processing one frame, under either guard, keeps the table invariant |
| Analyzer.BurstTable | src/main.c:181-288 | processing a whole burst, under either guard, keeps the table invariant |
| Analyzer.SweepRuns | src/main.c:175-290 | the sweep is due only after a non-empty burst; then it is due when `now - last_aging_tsc`, taken modulo 2^64 across a clock wrap, reaches the aging interval |
| Analyzer.DroppedFrameIsNoOp | src/main.c:185-229 | a frame shorter than 14 bytes, with a Next Header other than 6 or 17, or shorter than the guard's minimum (34 bytes as written) leaves table and index exactly as they were |
| Analyzer.FrameKeepsIndexed | src/main.c:264-286 | one frame never moves or removes an indexed key |
| Analyzer.FrameGrowsIndex | src/main.c:264-286 | one frame adds at most its own accepted key, and adds it unless the table is full |
| Analyzer.BurstKeepsIndexed | src/main.c:181-288 | during a burst every indexed key keeps its slot |
| Analyzer.BurstAddsOnlyAccepted | src/main.c:181-288 | a burst adds only keys of accepted frames, at most one per frame |
| Analyzer.FrameTracksAccepted | src/main.c:264-286 | below capacity, one frame indexes exactly the keys before plus its own accepted key |
| Analyzer.BurstTracksAccepted | src/main.c:181-288 | with room for every frame, the index after a burst is exactly the keys before plus the accepted frames' keys |
| Analyzer.BurstStep | src/main.c:175-293 | one burst, with or without the sweep, keeps the table invariant |
| Analyzer.EmptyBurstIsIdle | src/main.c:175 | an empty receive changes nothing and never sweeps, however much time has passed |
| Analyzer.SweepAfterBurst | src/main.c:175-293 | `total_rx` grows by the burst size mod 2^64; when the sweep runs, `last_aging_tsc` = now and no live flow is idle beyond the timeout; otherwise `last_aging_tsc` is unchanged and the table is the burst's |
| Analyzer.BurstKeepsCapacity | src/main.c:264-293 | after any burst at most `MAX_FLOWS` flows are live and no two live slots share a key |
| Analyzer.FlowAnalyzer.constructor | src/main.c:81 | start-up: empty table, `last_aging_tsc` = the start clock, `total_rx` = 0, timeouts derived from hz, and the length guard chosen |
| Analyzer.FlowAnalyzer.ProcessFrame | src/main.c:183-287 | the three guards and the update, written step by step, give `ClassifyWith`'s verdict and `FrameStep`'s table for the analyzer's guard; the buffer is freed exactly once on every path |
| Analyzer.FlowAnalyzer.ProcessNext | src/main.c:183-287 | processing frame i after frames 0..i-1 extends the burst's table by that frame and frees its buffer once |
| Analyzer.FlowAnalyzer.ProcessFrames | src/main.c:181-288 | the frame loop equals `BurstTable`, and frame i's buffer is the i-th freed, each exactly once |
| Analyzer.FlowAnalyzer.ProcessBurst | src/main.c:175-293 | one burst equals `BurstStep` and logs `BurstEvents`; every frame is freed exactly once, in order |

## Left out

- Device bring-up is not modelled: EAL initialisation, port, queue and mempool setup, and the `rte_exit` failure paths (src/main.c:77-143). It is I/O plumbing.
- The `while (1)` receive loop and `rte_eth_rx_burst` are not modelled. One burst is a sequence of at most `BURST_SIZE` frames handed to `ProcessBurst`.
- `rte_hash` internals are not modelled: bucket layout, jhash and its seed. The index is a map from keys to positions plus a FIFO ring of free positions. Adding a key fails only when all `MAX_FLOWS` positions are in use.
  - The real table can refuse a key earlier, when its buckets are full. The model does not capture this.
- `printf` and `inet_ntop` output are not modelled. The eviction log lines are kept as a sequence of (slot, protocol, packets, idle seconds) values, without formatting.
- `rte_rdtsc` and `rte_get_tsc_hz` become parameters. The TSC frequency must be positive, because `age_flows` divides by it.
- Multi-segment mbufs: only the first segment's bytes are read. `data_len` and `pkt_len` are separate fields with `data_len <= pkt_len`.
  - The frame's `room` is the first segment's data room from the data pointer onward. It is at least 58 bytes, the furthest byte any path reads, as with the default 2048-byte mbuf data room.
- The EtherType is not checked, matching the code: the check at src/main.c:207 is commented out. Every frame is read as IPv6.
- Host byte order is little-endian (x86), for the in-memory key layout that `rte_hash` hashes and compares.
- The sweep trigger is modelled as written: it is checked only after a non-empty burst. A trigger that does not depend on traffic is not modelled.
- Concurrency: the program is single-threaded, and nothing concurrent is modelled.

## Findings

| source | as written | input that shows it | evidently intended | confidence | as-written member | corrected member |
|---|---|---|---|---|---|---|
| src/main.c:225-229 | the length guard after the protocol check compares `data_len` with `14 + sizeof(struct rte_ipv4_hdr)` = 34, although the header that follows is IPv6 (40 bytes) and the ports are then read from bytes 54..57 | a 34-byte frame whose byte 20 is 17 (UDP): it passes every guard, and its ports come from bytes 54..57, beyond its data, so two frames with identical data get different keys | guard on `14 + sizeof(struct rte_ipv6_hdr)` + the transport header: 62 bytes for UDP, 74 for TCP | not executed | Classifier.AsWrittenReadsPastData | Classifier.ClassifyReadsOnlyData |
