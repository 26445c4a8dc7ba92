/**
 * The flow table of src/main.c: the array flow_stats[MAX_FLOWS] coupled
 * with the key index, the per-packet lookup/insert/update (lines 264-286)
 * and the aging sweep age_flows (lines 41-70).
 */
module Table {
  import opened Fixed
  import opened Flow
  import opened HashIndex

  /** The table's whole state: the slot array, the index's key positions
      and the index's ring of free positions. */
  datatype TableState = TableState(slots: seq<FlowStats>, positions: map<FlowKey, int>, free: seq<int>)

  /** The 1:1 correspondence: the index maps k to i exactly when slot i is
      live and holds key k. */
  ghost predicate Coherent(slots: seq<FlowStats>, positions: map<FlowKey, int>)
  {
    && (forall k | k in positions ::
          0 <= positions[k] < |slots| && IsLive(slots[positions[k]]) && slots[positions[k]].key == k)
    && (forall i | 0 <= i < |slots| && IsLive(slots[i]) ::
          slots[i].key in positions && positions[slots[i].key] == i)
  }

  /** The table invariant. */
  ghost predicate Inv(st: TableState)
  {
    && |st.slots| == MAX_FLOWS
    && IndexValid(st.positions, st.free)
    && Coherent(st.slots, st.positions)
  }

  /** The state at start-up: every slot zero (static storage), the index empty. */
  function EmptyTable(): TableState
  {
    TableState(seq(MAX_FLOWS, _ => ZeroStats), map[], AllPositions())
  }

  lemma EmptyTableInv()
    ensures Inv(EmptyTable())
  {
    EmptyIndexValid();
  }

  /** The invariant bounds the live flows and makes keys unique: the live
      keys are exactly the indexed keys, there are at most MAX_FLOWS of them,
      and no two live slots share a key. */
  lemma InvConsequences(st: TableState)
    requires Inv(st)
    ensures |st.positions| <= MAX_FLOWS
    ensures st.positions.Keys == set i | 0 <= i < |st.slots| && IsLive(st.slots[i]) :: st.slots[i].key
    ensures forall i, j | 0 <= i < j < |st.slots| && IsLive(st.slots[i]) && IsLive(st.slots[j]) ::
      st.slots[i].key != st.slots[j].key
  {
    var live := set i | 0 <= i < |st.slots| && IsLive(st.slots[i]) :: st.slots[i].key;
    forall k | k in st.positions
      ensures k in live
    {
      var i := st.positions[k];
      assert 0 <= i < |st.slots| && IsLive(st.slots[i]) && st.slots[i].key == k;
    }
  }

  // ---------------------------------------------------------------------
  // Per-packet update (src/main.c:264-286)

  /** What happened to a packet's key. */
  datatype Outcome = Hit(slot: nat) | Inserted(slot: nat) | TableFull

  /** A matched packet: one more packet, pkt_len more bytes (both uint64_t
      and wrapping), last seen now. */
  function Bump(s: FlowStats, pktLen: u32, tsc: u64): (r: FlowStats)
    ensures r.key == s.key && r.valid == s.valid
    ensures r.packets == Wrap64(s.packets + 1) && r.bytes == Wrap64(s.bytes + pktLen)
    ensures r.lastSeenTsc == tsc
  {
    s.(packets := Add64(s.packets, 1), bytes := Add64(s.bytes, pktLen), lastSeenTsc := tsc)
  }

  /** A fresh record seeded from the first packet of a flow. */
  function Seed(key: FlowKey, pktLen: u32, tsc: u64): (r: FlowStats)
    ensures IsLive(r) && r.key == key
  {
    FlowStats(key, 1, pktLen, tsc, 1)
  }

  /** Which branch the packet takes: a lookup hit, an insertion at the head
      of the free ring, or a full index. */
  function UpdateOutcome(st: TableState, key: FlowKey): Outcome
    requires Inv(st)
  {
    if key in st.positions then Hit(st.positions[key])
    else if st.free == [] then TableFull
    else Inserted(st.free[0])
  }

  /** The table after one accepted packet with the given key: a hit,
      an insert and a miss with the index full all keep the table
      coherent. */
  function UpdateState(st: TableState, key: FlowKey, pktLen: u32, tsc: u64): (r: TableState)
    requires Inv(st)
    ensures Inv(r)
  {
    if key in st.positions then
      var i := st.positions[key];
      st.(slots := st.slots[i := Bump(st.slots[i], pktLen, tsc)])
    else if st.free != [] then
      var i := st.free[0];
      InsertPreservesInv(st, key, pktLen, tsc);
      TableState(st.slots[i := Seed(key, pktLen, tsc)], st.positions[key := i], st.free[1..])
    else st
  }

  /** Seeding a free position with a new key keeps the table coherent. */
  lemma {:induction false} InsertPreservesInv(st: TableState, key: FlowKey, pktLen: u32, tsc: u64)
    requires Inv(st) && key !in st.positions && st.free != []
    ensures Inv(TableState(st.slots[st.free[0] := Seed(key, pktLen, tsc)], st.positions[key := st.free[0]], st.free[1..]))
  {
    var i := st.free[0];
    var r := TableState(st.slots[i := Seed(key, pktLen, tsc)], st.positions[key := i], st.free[1..]);
    AddKeepsIndexValid(st.positions, st.free, key);
    assert i !in st.positions.Values;
    forall k | k in r.positions
      ensures 0 <= r.positions[k] < |r.slots| && IsLive(r.slots[r.positions[k]]) && r.slots[r.positions[k]].key == k
    {
      if k != key {
        assert st.positions[k] in st.positions.Values;
      }
    }
    forall j | 0 <= j < |r.slots| && IsLive(r.slots[j])
      ensures r.slots[j].key in r.positions && r.positions[r.slots[j].key] == j
    {
      if j != i {
        assert st.slots[j].key in st.positions;
      }
    }
  }

  /** On a hit at slot i only slot i changes: one more packet, pkt_len more
      bytes, last seen at tsc; the index is untouched. */
  lemma UpdateHit(st: TableState, key: FlowKey, pktLen: u32, tsc: u64)
    requires Inv(st) && key in st.positions
    ensures var i := st.positions[key]; var r := UpdateState(st, key, pktLen, tsc);
      && UpdateOutcome(st, key) == Hit(i)
      && r.positions == st.positions && r.free == st.free
      && |r.slots| == |st.slots|
      && (forall j | 0 <= j < |r.slots| && j != i :: r.slots[j] == st.slots[j])
      && r.slots[i].key == key && IsLive(r.slots[i])
      && r.slots[i].packets == Add64(st.slots[i].packets, 1)
      && r.slots[i].bytes == Add64(st.slots[i].bytes, pktLen)
      && r.slots[i].lastSeenTsc == tsc
  {
  }

  /** On a miss with a free position i, slot i, which was free, is seeded
      with this packet and indexed under the key; nothing else changes. */
  lemma UpdateInsert(st: TableState, key: FlowKey, pktLen: u32, tsc: u64)
    requires Inv(st) && key !in st.positions && |st.positions| < MAX_FLOWS
    ensures UpdateOutcome(st, key).Inserted?
    ensures var i := UpdateOutcome(st, key).slot; var r := UpdateState(st, key, pktLen, tsc);
      && i < MAX_FLOWS && !IsLive(st.slots[i])
      && r.slots == st.slots[i := FlowStats(key, 1, pktLen, tsc, 1)]
      && r.positions == st.positions[key := i]
  {
    var i := st.free[0];
    assert i !in st.positions.Values;
  }

  /** The (MAX_FLOWS+1)-th live key is refused: the packet changes nothing. */
  lemma UpdateFull(st: TableState, key: FlowKey, pktLen: u32, tsc: u64)
    requires Inv(st)
    ensures UpdateOutcome(st, key) == TableFull <==> key !in st.positions && |st.positions| == MAX_FLOWS
    ensures UpdateOutcome(st, key) == TableFull ==> UpdateState(st, key, pktLen, tsc) == st
  {
    FullIffNoFree(st.positions, st.free);
  }

  /** After a hit or an insert, looking the key up finds a live slot
      holding that key. */
  lemma LookupAfterUpdate(st: TableState, key: FlowKey, pktLen: u32, tsc: u64)
    requires Inv(st) && UpdateOutcome(st, key) != TableFull
    ensures var r := UpdateState(st, key, pktLen, tsc);
      key in r.positions && r.positions[key] == UpdateOutcome(st, key).slot &&
      0 <= r.positions[key] < |r.slots| && IsLive(r.slots[r.positions[key]]) && r.slots[r.positions[key]].key == key
  {
  }

  /** A packet never moves or removes an indexed key and adds at most its
      own; its key ends up indexed unless it was new and the index full. */
  lemma UpdateKeepsIndexed(st: TableState, key: FlowKey, pktLen: u32, tsc: u64)
    requires Inv(st)
    ensures var r := UpdateState(st, key, pktLen, tsc);
      && (forall k | k in st.positions :: k in r.positions && r.positions[k] == st.positions[k])
      && r.positions.Keys <= st.positions.Keys + {key}
      && |r.positions| <= |st.positions| + 1
      && (key in r.positions <==> key in st.positions || |st.positions| < MAX_FLOWS)
  {
    FullIffNoFree(st.positions, st.free);
  }

  /** The table after a run of packets of one flow. */
  function UpdateAll(st: TableState, key: FlowKey, lens: seq<u32>, stamps: seq<u64>): (r: TableState)
    requires Inv(st) && |lens| == |stamps|
    ensures Inv(r)
    decreases |lens|
  {
    if lens == [] then st
    else
      var prev := UpdateAll(st, key, lens[..|lens| - 1], stamps[..|stamps| - 1]);
      UpdateState(prev, key, lens[|lens| - 1], stamps[|stamps| - 1])
  }

  function Sum(xs: seq<u32>): nat
  {
    if xs == [] then 0 else Sum(xs[..|xs| - 1]) + xs[|xs| - 1]
  }

  /** A slot after a run of hits. */
  function Hits(s: FlowStats, lens: seq<u32>, stamps: seq<u64>): FlowStats
    requires |lens| == |stamps|
    decreases |lens|
  {
    if lens == [] then s
    else Bump(Hits(s, lens[..|lens| - 1], stamps[..|stamps| - 1]), lens[|lens| - 1], stamps[|stamps| - 1])
  }

  /** A run of packets of an already tracked flow only hits its slot. */
  lemma {:induction false} UpdateAllHits(st: TableState, key: FlowKey, lens: seq<u32>, stamps: seq<u64>)
    requires Inv(st) && |lens| == |stamps| && key in st.positions
    ensures var i := st.positions[key]; var r := UpdateAll(st, key, lens, stamps);
      key in r.positions && r.positions[key] == i && r.slots[i] == Hits(st.slots[i], lens, stamps)
    decreases |lens|
  {
    if lens != [] {
      var n := |lens| - 1;
      UpdateAllHits(st, key, lens[..n], stamps[..n]);
      UpdateHit(UpdateAll(st, key, lens[..n], stamps[..n]), key, lens[n], stamps[n]);
    }
  }

  /** Counters after a run of hits: packets grew by the run's length and
      bytes by the packets' lengths, both modulo 2^64; last seen is the
      last packet's timestamp. */
  lemma {:induction false} HitsAccumulate(s: FlowStats, lens: seq<u32>, stamps: seq<u64>)
    requires |lens| == |stamps|
    ensures Hits(s, lens, stamps).packets == Wrap64(s.packets + |lens|)
    ensures Hits(s, lens, stamps).bytes == Wrap64(s.bytes + Sum(lens))
    ensures stamps != [] ==> Hits(s, lens, stamps).lastSeenTsc == stamps[|stamps| - 1]
    ensures Hits(s, lens, stamps).key == s.key && Hits(s, lens, stamps).valid == s.valid
    decreases |lens|
  {
    if lens == [] {
      Wrap64Small(s.packets);
      Wrap64Small(s.bytes);
    } else {
      var n := |lens| - 1;
      HitsAccumulate(s, lens[..n], stamps[..n]);
      Add64OfWrap64(s.packets + n, 1);
      Add64OfWrap64(s.bytes + Sum(lens[..n]), lens[n]);
    }
  }

  // ---------------------------------------------------------------------
  // Aging sweep (src/main.c:41-70)

  /** A slot the sweep evicts: live, and idle (now - last_seen_tsc, a
      uint64_t difference) for longer than the timeout. */
  predicate Expired(s: FlowStats, now: u64, timeout: u64)
  {
    IsLive(s) && Sub64(now, s.lastSeenTsc) > timeout
  }

  /** One iteration of the sweep at slot i: an expired slot's key is deleted
      from the index (its position returns to the free ring; an absent key
      changes nothing) and the slot is zeroed. */
  function Evict(st: TableState, i: nat, now: u64, timeout: u64): (r: TableState)
    requires i < |st.slots|
    ensures |r.slots| == |st.slots|
    ensures !Expired(st.slots[i], now, timeout) ==> r == st
    ensures Expired(st.slots[i], now, timeout) ==>
      r.slots == st.slots[i := ZeroStats] && r.positions == st.positions - {st.slots[i].key}
  {
    if !Expired(st.slots[i], now, timeout) then st
    else if st.slots[i].key in st.positions then
      TableState(st.slots[i := ZeroStats], st.positions - {st.slots[i].key}, st.free + [st.positions[st.slots[i].key]])
    else
      TableState(st.slots[i := ZeroStats], st.positions, st.free)
  }

  /** The table after the sweep has visited slots 0..n-1. */
  function AgeUpTo(st: TableState, n: nat, now: u64, timeout: u64): (r: TableState)
    requires n <= |st.slots|
    ensures |r.slots| == |st.slots|
  {
    if n == 0 then st else Evict(AgeUpTo(st, n - 1, now, timeout), n - 1, now, timeout)
  }

  /** The keys of the slots among 0..n-1 that are expired. */
  function ExpiredKeys(slots: seq<FlowStats>, n: nat, now: u64, timeout: u64): set<FlowKey>
    requires n <= |slots|
  {
    if n == 0 then {}
    else ExpiredKeys(slots, n - 1, now, timeout) +
         (if Expired(slots[n - 1], now, timeout) then {slots[n - 1].key} else {})
  }

  /** The whole sweep: every one of the MAX_FLOWS slots visited in order. */
  function Sweep(st: TableState, now: u64, timeout: u64): (r: TableState)
    requires |st.slots| == MAX_FLOWS
    ensures |r.slots| == MAX_FLOWS
    ensures r.positions == st.positions - ExpiredKeys(st.slots, MAX_FLOWS, now, timeout)
  {
    AgeUpToPositions(st, MAX_FLOWS, now, timeout);
    AgeUpTo(st, MAX_FLOWS, now, timeout)
  }

  /** One eviction step preserves the table invariant. */
  lemma {:induction false} EvictPreservesInv(st: TableState, i: nat, now: u64, timeout: u64)
    requires Inv(st) && i < |st.slots|
    ensures Inv(Evict(st, i, now, timeout))
  {
    if Expired(st.slots[i], now, timeout) {
      var k := st.slots[i].key;
      assert k in st.positions && st.positions[k] == i;
      DeleteKeepsIndexValid(st.positions, st.free, k);
      var r := Evict(st, i, now, timeout);
      forall k' | k' in r.positions
        ensures 0 <= r.positions[k'] < |r.slots| && IsLive(r.slots[r.positions[k']]) && r.slots[r.positions[k']].key == k'
      {
        assert st.positions[k'] != i;
      }
    }
  }

  /** Closed form of a partial sweep on the slots: visited expired slots
      are zero, every other slot is as before. */
  lemma {:induction false} AgeUpToSlots(st: TableState, n: nat, now: u64, timeout: u64)
    requires n <= |st.slots|
    ensures var r := AgeUpTo(st, n, now, timeout);
      forall j | 0 <= j < |st.slots| ::
        r.slots[j] == if j < n && Expired(st.slots[j], now, timeout) then ZeroStats else st.slots[j]
  {
    if n > 0 {
      AgeUpToSlots(st, n - 1, now, timeout);
    }
  }

  /** Closed form of a partial sweep on the index: exactly the keys of the
      visited expired slots are gone. */
  lemma {:induction false} AgeUpToPositions(st: TableState, n: nat, now: u64, timeout: u64)
    requires n <= |st.slots|
    ensures AgeUpTo(st, n, now, timeout).positions == st.positions - ExpiredKeys(st.slots, n, now, timeout)
  {
    if n > 0 {
      AgeUpToPositions(st, n - 1, now, timeout);
      AgeUpToSlots(st, n - 1, now, timeout);
      var prev := AgeUpTo(st, n - 1, now, timeout);
      assert prev.slots[n - 1] == st.slots[n - 1];
      var e := ExpiredKeys(st.slots, n - 1, now, timeout);
      if Expired(st.slots[n - 1], now, timeout) {
        assert st.positions - e - {st.slots[n - 1].key} == st.positions - (e + {st.slots[n - 1].key});
      } else {
        assert e + {} == e;
      }
    }
  }

  /** A partial sweep preserves the table invariant. */
  lemma {:induction false} AgeUpToPreservesInv(st: TableState, n: nat, now: u64, timeout: u64)
    requires Inv(st) && n <= |st.slots|
    ensures Inv(AgeUpTo(st, n, now, timeout))
  {
    if n > 0 {
      AgeUpToPreservesInv(st, n - 1, now, timeout);
      EvictPreservesInv(AgeUpTo(st, n - 1, now, timeout), n - 1, now, timeout);
    }
  }

  lemma {:induction false} ExpiredKeysMember(slots: seq<FlowStats>, n: nat, now: u64, timeout: u64, j: nat)
    requires j < n <= |slots| && Expired(slots[j], now, timeout)
    ensures slots[j].key in ExpiredKeys(slots, n, now, timeout)
  {
    if j < n - 1 {
      ExpiredKeysMember(slots, n - 1, now, timeout, j);
    }
  }

  /** The exact eviction condition: after the sweep no live slot has been
      idle longer than the timeout; each slot that was has been zeroed and
      its key removed from the index; every other slot is unchanged. */
  lemma SweepExact(st: TableState, now: u64, timeout: u64)
    requires |st.slots| == MAX_FLOWS
    ensures var r := Sweep(st, now, timeout);
      && (forall i | 0 <= i < MAX_FLOWS && IsLive(r.slots[i]) :: Sub64(now, r.slots[i].lastSeenTsc) <= timeout)
      && (forall i | 0 <= i < MAX_FLOWS && Expired(st.slots[i], now, timeout) ::
            r.slots[i] == ZeroStats && st.slots[i].key !in r.positions)
      && (forall i | 0 <= i < MAX_FLOWS && !Expired(st.slots[i], now, timeout) :: r.slots[i] == st.slots[i])
  {
    AgeUpToSlots(st, MAX_FLOWS, now, timeout);
    AgeUpToPositions(st, MAX_FLOWS, now, timeout);
    forall i | 0 <= i < MAX_FLOWS && Expired(st.slots[i], now, timeout)
      ensures st.slots[i].key in ExpiredKeys(st.slots, MAX_FLOWS, now, timeout)
    {
      ExpiredKeysMember(st.slots, MAX_FLOWS, now, timeout, i);
    }
  }

  /** The sweep preserves the table invariant, and a live flow idle no
      longer than the timeout survives it at the same slot and index entry. */
  lemma SweepKeepsSurvivors(st: TableState, now: u64, timeout: u64)
    requires Inv(st)
    ensures Inv(Sweep(st, now, timeout))
    ensures forall i | 0 <= i < MAX_FLOWS && IsLive(st.slots[i]) && !Expired(st.slots[i], now, timeout) ::
      st.slots[i].key in Sweep(st, now, timeout).positions && Sweep(st, now, timeout).positions[st.slots[i].key] == i
  {
    AgeUpToPreservesInv(st, MAX_FLOWS, now, timeout);
    SweepExact(st, now, timeout);
  }

  /** A log line of the sweep: slot, protocol, packet count, whole seconds idle. */
  datatype Eviction = Eviction(slot: nat, proto: byte, packets: u64, idleSec: nat)

  /** The log line, if any, of the sweep's visit to a slot i holding s. */
  function EvictionLog(s: FlowStats, i: nat, now: u64, timeout: u64, hz: u64): seq<Eviction>
    requires hz > 0
  {
    if Expired(s, now, timeout) then [Eviction(i, s.key.proto, s.packets, Div(Sub64(now, s.lastSeenTsc), hz))] else []
  }

  /** The events of the sweep's visits to slots 0..n-1, in slot order. */
  function EventsUpTo(st: TableState, n: nat, now: u64, timeout: u64, hz: u64): seq<Eviction>
    requires n <= |st.slots| && hz > 0
  {
    if n == 0 then []
    else EventsUpTo(st, n - 1, now, timeout, hz) + EvictionLog(AgeUpTo(st, n - 1, now, timeout).slots[n - 1], n - 1, now, timeout, hz)
  }

  /** The sweep's visit to slot n-1 sees the slot as it was before the
      sweep, so its log line is computed from the original record. */
  lemma EventsUpToStep(st: TableState, n: nat, now: u64, timeout: u64, hz: u64)
    requires 0 < n <= |st.slots| && hz > 0
    ensures EventsUpTo(st, n, now, timeout, hz) ==
            EventsUpTo(st, n - 1, now, timeout, hz) + EvictionLog(st.slots[n - 1], n - 1, now, timeout, hz)
  {
    AgeUpToSlots(st, n - 1, now, timeout);
  }

  /** What an event says about the slot it names, among slots 0..n-1. */
  predicate NamesEvicted(st: TableState, e: Eviction, n: nat, now: u64, timeout: u64, hz: u64)
    requires hz > 0
  {
    && e.slot < n && e.slot < |st.slots| && Expired(st.slots[e.slot], now, timeout)
    && e.proto == st.slots[e.slot].key.proto
    && e.packets == st.slots[e.slot].packets
    && e.idleSec == Sub64(now, st.slots[e.slot].lastSeenTsc) / hz
  }

  /** Each event names a slot the sweep evicted, with that flow's protocol,
      its packet count and its idle time in whole seconds; the events are
      in strictly increasing slot order, so no slot is named twice. */
  lemma {:induction false} EventsNameEvictedSlots(st: TableState, n: nat, now: u64, timeout: u64, hz: u64)
    requires n <= |st.slots| && hz > 0
    ensures var ev := EventsUpTo(st, n, now, timeout, hz);
      && (forall k | 0 <= k < |ev| :: NamesEvicted(st, ev[k], n, now, timeout, hz))
      && (forall a, b | 0 <= a < b < |ev| :: ev[a].slot < ev[b].slot)
  {
    if n > 0 {
      EventsNameEvictedSlots(st, n - 1, now, timeout, hz);
      EventsUpToStep(st, n, now, timeout, hz);
      var prev := EventsUpTo(st, n - 1, now, timeout, hz);
      var log := EvictionLog(st.slots[n - 1], n - 1, now, timeout, hz);
      var ev := prev + log;
      forall k | 0 <= k < |ev| ensures NamesEvicted(st, ev[k], n, now, timeout, hz) {
        if k < |prev| {
          assert NamesEvicted(st, prev[k], n - 1, now, timeout, hz);
        }
      }
      forall a, b | 0 <= a < b < |ev| ensures ev[a].slot < ev[b].slot {
        if b >= |prev| {
          assert NamesEvicted(st, prev[a], n - 1, now, timeout, hz);
        }
      }
    }
  }

  /** Appending to a log keeps every slot it names. */
  lemma AppendKeepsSlot(prev: seq<Eviction>, log: seq<Eviction>, j: nat)
    requires exists k | 0 <= k < |prev| :: prev[k].slot == j
    ensures exists k | 0 <= k < |prev + log| :: (prev + log)[k].slot == j
  {
    var k :| 0 <= k < |prev| && prev[k].slot == j;
    assert (prev + log)[k] == prev[k];
  }

  /** Every slot among 0..n-1 whose flow had expired has an event. */
  lemma {:induction false} EventsCoverExpiredSlots(st: TableState, n: nat, now: u64, timeout: u64, hz: u64)
    requires n <= |st.slots| && hz > 0
    ensures var ev := EventsUpTo(st, n, now, timeout, hz);
      forall j | 0 <= j < n && Expired(st.slots[j], now, timeout) :: exists k | 0 <= k < |ev| :: ev[k].slot == j
  {
    if n > 0 {
      EventsCoverExpiredSlots(st, n - 1, now, timeout, hz);
      EventsUpToStep(st, n, now, timeout, hz);
      var prev: seq<Eviction> := EventsUpTo(st, n - 1, now, timeout, hz);
      var log: seq<Eviction> := EvictionLog(st.slots[n - 1], n - 1, now, timeout, hz);
      forall j | 0 <= j < n && Expired(st.slots[j], now, timeout)
        ensures exists k | 0 <= k < |prev + log| :: (prev + log)[k].slot == j
      {
        if j < n - 1 {
          AppendKeepsSlot(prev, log, j);
        } else {
          assert (prev + log)[|prev|].slot == j;
        }
      }
    }
  }

  // ---------------------------------------------------------------------
  // The table as mutable storage

  class FlowTable {
    /** static struct flow_stats flow_stats[MAX_FLOWS] */
    const stats: array<FlowStats>
    /** the rte_hash index */
    const index: FlowIndex

    ghost function Model(): TableState
      reads this, stats, index
    {
      TableState(stats[..], index.positions, index.free)
    }

    ghost predicate Valid()
      reads this, stats, index
    {
      stats.Length == MAX_FLOWS && Inv(Model())
    }

    constructor ()
      ensures Valid() && fresh(stats) && fresh(index)
      ensures Model() == EmptyTable()
    {
      stats := new FlowStats[MAX_FLOWS](_ => ZeroStats);
      index := new FlowIndex();
      new;
      assert stats[..] == seq(MAX_FLOWS, _ => ZeroStats);
      EmptyTableInv();
    }

    /** Lines 264-286 for a classified packet: on a hit bump the slot's
        counters, on a miss add the key and seed the slot it is given. */
    method Update(key: FlowKey, pktLen: u32, tsc: u64) returns (outcome: Outcome)
      requires Valid()
      modifies stats, index
      ensures Valid()
      ensures outcome == UpdateOutcome(old(Model()), key)
      ensures Model() == UpdateState(old(Model()), key, pktLen, tsc)
    {
      ghost var st := Model();
      ghost var r := UpdateState(st, key, pktLen, tsc);
      var ret := index.Lookup(key);
      if ret >= 0 {
        stats[ret] := Bump(stats[ret], pktLen, tsc);
        outcome := Hit(ret);
        assert stats[..] == r.slots;
      } else {
        var idx := index.AddKey(key);
        if idx >= 0 {
          stats[idx] := Seed(key, pktLen, tsc);
          outcome := Inserted(idx);
          assert stats[..] == r.slots;
        } else {
          outcome := TableFull;
        }
      }
    }

    /** One iteration of age_flows at slot i: a live slot idle for longer
        than the timeout is logged, its key deleted and the slot zeroed. */
    method AgeSlot(i: nat, now: u64, timeout: u64, hz: u64) returns (logged: seq<Eviction>)
      requires Valid() && i < MAX_FLOWS && hz > 0
      modifies stats, index
      ensures Valid()
      ensures Model() == Evict(old(Model()), i, now, timeout)
      ensures logged == EvictionLog(old(Model()).slots[i], i, now, timeout, hz)
    {
      ghost var prev := Model();
      EvictPreservesInv(prev, i, now, timeout);
      var s := stats[i];
      logged := [];
      if s.valid != 0 {
        var diff := Sub64(now, s.lastSeenTsc);
        if diff > timeout {
          var idleSec := Div(diff, hz);
          logged := [Eviction(i, s.key.proto, s.packets, idleSec)];
          var _ := index.DelKey(s.key);
          stats[i] := ZeroStats;
        }
      }
      assert Model() == Evict(prev, i, now, timeout);
    }

    /** age_flows: visit every slot in order, evicting and logging each
        live slot idle for longer than the timeout. */
    method AgeFlows(now: u64, timeout: u64, hz: u64) returns (events: seq<Eviction>)
      requires Valid() && hz > 0
      modifies stats, index
      ensures Valid()
      ensures Model() == Sweep(old(Model()), now, timeout)
      ensures events == EventsUpTo(old(Model()), MAX_FLOWS, now, timeout, hz)
    {
      ghost var st := Model();
      events := [];
      for i := 0 to MAX_FLOWS
        invariant Valid()
        invariant Model() == AgeUpTo(st, i, now, timeout)
        invariant events == EventsUpTo(st, i, now, timeout, hz)
      {
        var logged := AgeSlot(i, now, timeout, hz);
        events := events + logged;
      }
    }
  }
}
