/**
 * The per-burst procedure of src/main.c (lines 175-293): every received
 * frame is classified, its flow's record updated, and its buffer freed;
 * after a non-empty burst the aging sweep runs once the aging interval has
 * elapsed since the previous sweep.
 */
module Analyzer {
  import opened Fixed
  import opened Flow
  import opened Classifier
  import opened HashIndex
  import opened Table

  /** The most frames one rte_eth_rx_burst call returns. */
  const BURST_SIZE: nat := 32

  /** AGING_INTERVAL_SEC and FLOW_TIMEOUT_SEC, in seconds. */
  const AGING_INTERVAL_SEC: nat := 10
  const FLOW_TIMEOUT_SEC: nat := 5

  /** flow_timeout_tsc and aging_interval_tsc: seconds times the TSC
      frequency, as uint64_t products (lines 161-162). */
  function TimeoutTsc(hz: u64): u64 { Mul64(FLOW_TIMEOUT_SEC, hz) }
  function IntervalTsc(hz: u64): u64 { Mul64(AGING_INTERVAL_SEC, hz) }

  predicate AllWellFormed(frames: seq<Frame>)
  {
    forall j | 0 <= j < |frames| :: WellFormed(frames[j])
  }

  /** One frame: a dropped frame leaves the table alone; an accepted one
      updates the table under its key, stamped with tsc. */
  function FrameStep(g: Guard, st: TableState, f: Frame, tsc: u64): (r: TableState)
    requires Inv(st) && WellFormed(f)
    ensures Inv(r)
  {
    var v := ClassifyWith(g, f);
    if v.Reject? then st
    else
      UpdateState(st, v.key, f.pktLen, tsc)
  }

  /** The table after the frames of a burst, in order, frame j stamped
      with stamps[j]. */
  function BurstTable(g: Guard, st: TableState, frames: seq<Frame>, stamps: seq<u64>): (r: TableState)
    requires Inv(st) && |frames| == |stamps| && AllWellFormed(frames)
    ensures Inv(r)
    decreases |frames|
  {
    if frames == [] then st
    else
      var n := |frames| - 1;
      FrameStep(g, BurstTable(g, st, frames[..n], stamps[..n]), frames[n], stamps[n])
  }

  /** A burst one frame longer is the shorter burst followed by that frame. */
  lemma BurstTableSnoc(g: Guard, st: TableState, frames: seq<Frame>, stamps: seq<u64>, i: nat)
    requires Inv(st) && |frames| == |stamps| && AllWellFormed(frames) && i < |frames|
    ensures BurstTable(g, st, frames[..i + 1], stamps[..i + 1]) ==
            FrameStep(g, BurstTable(g, st, frames[..i], stamps[..i]), frames[i], stamps[i])
  {
    assert frames[..i + 1][..i] == frames[..i] && stamps[..i + 1][..i] == stamps[..i];
  }

  /** The key a frame contributes to the table: its key if the classifier
      accepts it, none otherwise. */
  function FrameKeys(g: Guard, f: Frame): set<FlowKey>
  {
    if WellFormed(f) && ClassifyWith(g, f).Accept? then {ClassifyWith(g, f).key} else {}
  }

  /** The keys the classifier accepts among a burst's frames. */
  function AcceptedKeys(g: Guard, frames: seq<Frame>): set<FlowKey>
    decreases |frames|
  {
    if frames == [] then {} else AcceptedKeys(g, frames[..|frames| - 1]) + FrameKeys(g, frames[|frames| - 1])
  }

  /** The state the burst procedure carries between bursts: the flow table,
      last_aging_tsc and total_rx. */
  datatype Tracker = Tracker(table: TableState, lastAgingTsc: u64, totalRx: u64)

  /** The sweep runs after a burst of burstLen frames exactly when the burst
      was non-empty and at least the aging interval has elapsed (uint64_t
      difference) since the last sweep. */
  predicate SweepRuns(burstLen: nat, now: u64, lastAgingTsc: u64, hz: u64): (due: bool)
    ensures due ==> burstLen > 0
    ensures burstLen > 0 && lastAgingTsc <= now ==> (due <==> now - lastAgingTsc >= IntervalTsc(hz))
    ensures burstLen > 0 && now < lastAgingTsc ==> (due <==> now + TWO_64 - lastAgingTsc >= IntervalTsc(hz))
  {
    burstLen > 0 && Sub64(now, lastAgingTsc) >= IntervalTsc(hz)
  }

  /** The state after one burst: frames processed, then possibly a sweep
      at ageNow, the clock age_flows reads for itself. */
  function BurstStep(g: Guard, t: Tracker, frames: seq<Frame>, stamps: seq<u64>, now: u64, ageNow: u64, hz: u64): (r: Tracker)
    requires Inv(t.table) && |frames| == |stamps| <= BURST_SIZE && AllWellFormed(frames)
    ensures Inv(r.table)
  {
    var mid := BurstTable(g, t.table, frames, stamps);
    if SweepRuns(|frames|, now, t.lastAgingTsc, hz) then
      SweepKeepsSurvivors(mid, ageNow, TimeoutTsc(hz));
      Tracker(Sweep(mid, ageNow, TimeoutTsc(hz)), now, Add64(t.totalRx, |frames|))
    else
      Tracker(mid, t.lastAgingTsc, Add64(t.totalRx, |frames|))
  }

  /** The eviction log lines printed during one burst. */
  function BurstEvents(g: Guard, t: Tracker, frames: seq<Frame>, stamps: seq<u64>, now: u64, ageNow: u64, hz: u64): seq<Eviction>
    requires Inv(t.table) && |frames| == |stamps| <= BURST_SIZE && AllWellFormed(frames) && hz > 0
  {
    if SweepRuns(|frames|, now, t.lastAgingTsc, hz) then
      EventsUpTo(BurstTable(g, t.table, frames, stamps), MAX_FLOWS, ageNow, TimeoutTsc(hz), hz)
    else []
  }

  // ---------------------------------------------------------------------
  // Properties of a burst

  /** A frame the guards drop (shorter than the Ethernet header, a Next
      Header other than TCP or UDP, or shorter than the guard's minimum
      length, 34 bytes as written) leaves the table exactly as it was. */
  lemma DroppedFrameIsNoOp(g: Guard, st: TableState, f: Frame, tsc: u64)
    requires Inv(st) && WellFormed(f)
    requires f.dataLen < ETHER_HDR_LEN || !IsTransport(f.room[NEXT_HEADER_AT]) ||
             f.dataLen < MinFrameLen(g, f.room[NEXT_HEADER_AT])
    ensures FrameStep(g, st, f, tsc) == st
  {
  }

  /** One frame never moves or removes an indexed key. */
  lemma FrameKeepsIndexed(g: Guard, st: TableState, f: Frame, tsc: u64)
    requires Inv(st) && WellFormed(f)
    ensures var r := FrameStep(g, st, f, tsc);
      forall k | k in st.positions :: k in r.positions && r.positions[k] == st.positions[k]
  {
    var v := ClassifyWith(g, f);
    if v.Accept? {
      UpdateKeepsIndexed(st, v.key, f.pktLen, tsc);
    }
  }

  /** One frame adds at most its own accepted key to the index, and adds
      it unless the index is full. */
  lemma FrameGrowsIndex(g: Guard, st: TableState, f: Frame, tsc: u64)
    requires Inv(st) && WellFormed(f)
    ensures var r := FrameStep(g, st, f, tsc);
      && st.positions.Keys <= r.positions.Keys <= st.positions.Keys + FrameKeys(g, f)
      && |r.positions| <= |st.positions| + 1
      && (|st.positions| < MAX_FLOWS ==> FrameKeys(g, f) <= r.positions.Keys)
  {
    var v := ClassifyWith(g, f);
    if v.Accept? {
      UpdateKeepsIndexed(st, v.key, f.pktLen, tsc);
    }
  }

  /** During a burst an indexed key keeps its slot. */
  lemma {:induction false} BurstKeepsIndexed(g: Guard, st: TableState, frames: seq<Frame>, stamps: seq<u64>)
    requires Inv(st) && |frames| == |stamps| && AllWellFormed(frames)
    ensures var r := BurstTable(g, st, frames, stamps);
      forall k | k in st.positions :: k in r.positions && r.positions[k] == st.positions[k]
    decreases |frames|
  {
    if frames != [] {
      var n := |frames| - 1;
      BurstKeepsIndexed(g, st, frames[..n], stamps[..n]);
      FrameKeepsIndexed(g, BurstTable(g, st, frames[..n], stamps[..n]), frames[n], stamps[n]);
    }
  }

  /** The only keys a burst adds to the index are keys of its accepted
      frames, at most one per frame. */
  lemma {:induction false} BurstAddsOnlyAccepted(g: Guard, st: TableState, frames: seq<Frame>, stamps: seq<u64>)
    requires Inv(st) && |frames| == |stamps| && AllWellFormed(frames)
    ensures var r := BurstTable(g, st, frames, stamps);
      && r.positions.Keys <= st.positions.Keys + AcceptedKeys(g, frames)
      && |r.positions| <= |st.positions| + |frames|
    decreases |frames|
  {
    if frames != [] {
      var n := |frames| - 1;
      BurstAddsOnlyAccepted(g, st, frames[..n], stamps[..n]);
      FrameGrowsIndex(g, BurstTable(g, st, frames[..n], stamps[..n]), frames[n], stamps[n]);
    }
  }

  /** Below capacity, one frame indexes exactly the keys indexed before
      plus its own accepted key. */
  lemma FrameTracksAccepted(g: Guard, st: TableState, f: Frame, tsc: u64, before: set<FlowKey>)
    requires Inv(st) && WellFormed(f) && |st.positions| < MAX_FLOWS
    requires st.positions.Keys == before
    ensures FrameStep(g, st, f, tsc).positions.Keys == before + FrameKeys(g, f)
  {
    FrameGrowsIndex(g, st, f, tsc);
  }

  /** With room for every frame, a burst indexes exactly the keys indexed
      before plus the keys of its accepted frames. */
  lemma {:induction false} BurstTracksAccepted(g: Guard, st: TableState, frames: seq<Frame>, stamps: seq<u64>)
    requires Inv(st) && |frames| == |stamps| && AllWellFormed(frames)
    requires |st.positions| + |frames| <= MAX_FLOWS
    ensures BurstTable(g, st, frames, stamps).positions.Keys == st.positions.Keys + AcceptedKeys(g, frames)
    decreases |frames|
  {
    if frames != [] {
      var n := |frames| - 1;
      var prev := BurstTable(g, st, frames[..n], stamps[..n]);
      BurstTracksAccepted(g, st, frames[..n], stamps[..n]);
      BurstAddsOnlyAccepted(g, st, frames[..n], stamps[..n]);
      FrameTracksAccepted(g, prev, frames[n], stamps[n], st.positions.Keys + AcceptedKeys(g, frames[..n]));
    }
  }

  /** A receive call that returns nothing changes nothing: no frame is
      processed, total_rx stays, and the sweep does not run however much
      time has passed. */
  lemma EmptyBurstIsIdle(g: Guard, t: Tracker, now: u64, ageNow: u64, hz: u64)
    requires Inv(t.table) && hz > 0
    ensures BurstStep(g, t, [], [], now, ageNow, hz) == t
    ensures BurstEvents(g, t, [], [], now, ageNow, hz) == []
  {
    Wrap64Small(t.totalRx);
  }

  /** After a burst that triggers the sweep, last_aging_tsc is the burst's
      clock and no live flow has been idle longer than the timeout at the
      sweep's clock; without the sweep, last_aging_tsc is unchanged and the
      table is the burst's. total_rx grows by the burst size modulo 2^64. */
  lemma SweepAfterBurst(g: Guard, t: Tracker, frames: seq<Frame>, stamps: seq<u64>, now: u64, ageNow: u64, hz: u64)
    requires Inv(t.table) && |frames| == |stamps| <= BURST_SIZE && AllWellFormed(frames)
    ensures var r := BurstStep(g, t, frames, stamps, now, ageNow, hz);
      && r.totalRx == Wrap64(t.totalRx + |frames|)
      && (SweepRuns(|frames|, now, t.lastAgingTsc, hz) ==>
            r.lastAgingTsc == now &&
            forall i | 0 <= i < MAX_FLOWS && IsLive(r.table.slots[i]) ::
              Sub64(ageNow, r.table.slots[i].lastSeenTsc) <= TimeoutTsc(hz))
      && (!SweepRuns(|frames|, now, t.lastAgingTsc, hz) ==>
            r.lastAgingTsc == t.lastAgingTsc && r.table == BurstTable(g, t.table, frames, stamps))
  {
    var mid := BurstTable(g, t.table, frames, stamps);
    SweepExact(mid, ageNow, TimeoutTsc(hz));
  }

  /** After any burst at most MAX_FLOWS flows are live and no two live
      slots hold the same key. */
  lemma BurstKeepsCapacity(g: Guard, t: Tracker, frames: seq<Frame>, stamps: seq<u64>, now: u64, ageNow: u64, hz: u64)
    requires Inv(t.table) && |frames| == |stamps| <= BURST_SIZE && AllWellFormed(frames)
    ensures var r := BurstStep(g, t, frames, stamps, now, ageNow, hz).table;
      && |r.positions| <= MAX_FLOWS
      && forall i, j | 0 <= i < j < MAX_FLOWS && IsLive(r.slots[i]) && IsLive(r.slots[j]) ::
           r.slots[i].key != r.slots[j].key
  {
    InvConsequences(BurstStep(g, t, frames, stamps, now, ageNow, hz).table);
  }

  // ---------------------------------------------------------------------
  // The procedure as mutable state

  /** The record of frees buffers released for frame i. */
  function Freed(i: nat, frees: nat): (r: seq<nat>)
    ensures |r| == frees && forall j | 0 <= j < frees :: r[j] == i
  {
    seq(frees, _ => i)
  }

  class FlowAnalyzer {
    /** flow_stats together with flow_hash */
    const table: FlowTable
    /** rte_get_tsc_hz() */
    const hz: u64
    const flowTimeoutTsc: u64
    const agingIntervalTsc: u64
    /** the length guard the frame loop applies */
    const guard: Guard
    var lastAgingTsc: u64
    var totalRx: u64

    ghost function State(): Tracker
      reads this, table, table.stats, table.index
    {
      Tracker(table.Model(), lastAgingTsc, totalRx)
    }

    ghost predicate Valid()
      reads this, table, table.stats, table.index
    {
      && table.Valid() && hz > 0
      && flowTimeoutTsc == TimeoutTsc(hz) && agingIntervalTsc == IntervalTsc(hz)
    }

    /** Start-up: last_aging_tsc is read first (line 81), the table is
        empty, and the two intervals are derived from the TSC frequency. */
    constructor (guard: Guard, hz: u64, startTsc: u64)
      requires hz > 0
      ensures Valid() && this.hz == hz && this.guard == guard
      ensures State() == Tracker(EmptyTable(), startTsc, 0)
    {
      table := new FlowTable();
      this.guard := guard;
      this.hz := hz;
      flowTimeoutTsc := Mul64(FLOW_TIMEOUT_SEC, hz);
      agingIntervalTsc := Mul64(AGING_INTERVAL_SEC, hz);
      lastAgingTsc := startTsc;
      totalRx := 0;
    }

    /** One iteration of the frame loop (lines 183-287): the three drop
        guards, each freeing the buffer, then the key and the table update,
        then the final free. `frees` counts the rte_pktmbuf_free calls. */
    method ProcessFrame(f: Frame, tsc: u64) returns (verdict: Verdict, frees: nat)
      requires Valid() && WellFormed(f)
      modifies table.stats, table.index
      ensures Valid()
      ensures verdict == ClassifyWith(guard, f)
      ensures table.Model() == FrameStep(guard, old(table.Model()), f, tsc)
      ensures frees == 1
    {
      frees := 0;
      if f.dataLen < ETHER_HDR_LEN {
        frees := frees + 1;
        return Reject(ShortFrame), frees;
      }
      var proto := f.room[NEXT_HEADER_AT];
      if proto == 0 || (proto != IPPROTO_TCP && proto != IPPROTO_UDP) {
        frees := frees + 1;
        return Reject(UnsupportedProtocol), frees;
      }
      if f.dataLen < MinFrameLen(guard, proto) {
        frees := frees + 1;
        return Reject(ShortHeader), frees;
      }
      var key := KeyOf(f.room);
      assert ClassifyWith(guard, f) == Accept(key);
      var _ := table.Update(key, f.pktLen, tsc);
      frees := frees + 1;
      verdict := Accept(key);
    }

    /** Frame i of a burst, processed after frames 0..i-1: the table is
        the burst's table one frame further on. */
    method ProcessNext(frames: seq<Frame>, stamps: seq<u64>, i: nat, ghost st: TableState) returns (frees: nat)
      requires Valid() && |frames| == |stamps| && AllWellFormed(frames) && i < |frames| && Inv(st)
      requires table.Model() == BurstTable(guard, st, frames[..i], stamps[..i])
      modifies table.stats, table.index
      ensures Valid()
      ensures table.Model() == BurstTable(guard, st, frames[..i + 1], stamps[..i + 1])
      ensures frees == 1
    {
      BurstTableSnoc(guard, st, frames, stamps, i);
      var _, n := ProcessFrame(frames[i], stamps[i]);
      frees := n;
    }

    /** The frame loop of one burst (lines 181-288): each frame processed
        and freed in order. `released` lists the frames whose buffers were
        freed, in the order freed. */
    method ProcessFrames(frames: seq<Frame>, stamps: seq<u64>) returns (released: seq<nat>)
      requires Valid() && |frames| == |stamps| && AllWellFormed(frames)
      modifies table.stats, table.index
      ensures Valid()
      ensures table.Model() == BurstTable(guard, old(table.Model()), frames, stamps)
      ensures |released| == |frames| && forall j | 0 <= j < |frames| :: released[j] == j
    {
      ghost var st := table.Model();
      released := [];
      for i := 0 to |frames|
        invariant Valid()
        invariant table.Model() == BurstTable(guard, st, frames[..i], stamps[..i])
        invariant |released| == i && forall j | 0 <= j < i :: released[j] == j
      {
        var frees := ProcessNext(frames, stamps, i, st);
        released := released + Freed(i, frees);
      }
      assert frames[..|frames|] == frames && stamps[..|stamps|] == stamps;
    }

    /** The body of the receive loop for one burst (lines 175-293): count
        the frames, process and free each, then run the sweep if the aging
        interval has elapsed since the last one. */
    method ProcessBurst(frames: seq<Frame>, stamps: seq<u64>, now: u64, ageNow: u64)
      returns (released: seq<nat>, events: seq<Eviction>)
      requires Valid() && |frames| == |stamps| <= BURST_SIZE && AllWellFormed(frames)
      modifies this, table.stats, table.index
      ensures Valid()
      ensures State() == BurstStep(guard, old(State()), frames, stamps, now, ageNow, hz)
      ensures events == BurstEvents(guard, old(State()), frames, stamps, now, ageNow, hz)
      ensures |released| == |frames| && forall j | 0 <= j < |frames| :: released[j] == j
    {
      released := [];
      events := [];
      if |frames| > 0 {
        totalRx := Add64(totalRx, |frames|);
        released := ProcessFrames(frames, stamps);
        if Sub64(now, lastAgingTsc) >= agingIntervalTsc {
          events := table.AgeFlows(ageNow, flowTimeoutTsc, hz);
          lastAgingTsc := now;
        }
      }
    }
  }
}
