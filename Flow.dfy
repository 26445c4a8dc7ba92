/**
 * The records of src/flow.h: the packed flow key and the per-slot flow
 * statistics record.
 */
module Flow {
  import opened Fixed

  /** Length of an IPv6 address in bytes. */
  const ADDR_LEN: nat := 16

  /** sizeof(struct flow6_key): the struct is packed, so 16 + 16 + 2 + 2 + 1. */
  const KEY_SIZE: nat := 37

  type Addr = s: seq<byte> | |s| == 16 witness seq(16, _ => 0)

  /** struct flow6_key: the five fields that identify a unidirectional flow. */
  datatype FlowKey = FlowKey(srcIp: Addr, dstIp: Addr, srcPort: u16, dstPort: u16, proto: byte)

  /** struct flow_stats: one slot of the flow table. `valid` is the occupancy
      byte; zero means the slot is free. */
  datatype FlowStats = FlowStats(key: FlowKey, packets: u64, bytes: u64, lastSeenTsc: u64, valid: byte)

  const ZeroAddr: Addr := [0, 0, 0, 0, 0, 0, 0, 0, 0, 0, 0, 0, 0, 0, 0, 0]

  /** A key whose every byte is zero. */
  const ZeroKey: FlowKey := FlowKey(ZeroAddr, ZeroAddr, 0, 0, 0)

  /** A slot after memset(&flow_stats[i], 0, sizeof(struct flow_stats)). */
  const ZeroStats: FlowStats := FlowStats(ZeroKey, 0, 0, 0, 0)

  predicate IsLive(s: FlowStats) { s.valid != 0 }

  /** A 16-bit field in host byte order (little-endian, x86). */
  function HostOrder16(v: u16): seq<byte> { [Low(v), High(v)] }

  /** The bytes of a key as it lies in memory: the packed layout that
      rte_hash hashes and compares over sizeof(struct flow6_key) bytes. */
  function KeyBytes(k: FlowKey): (b: seq<byte>)
    ensures |b| == KEY_SIZE
  {
    k.srcIp + k.dstIp + HostOrder16(k.srcPort) + HostOrder16(k.dstPort) + [k.proto]
  }

  /** Reads a key back from its packed in-memory bytes. */
  function KeyFromBytes(b: seq<byte>): FlowKey
    requires |b| == KEY_SIZE
  {
    FlowKey(b[0..16], b[16..32], b[33] * TWO_8 + b[32], b[35] * TWO_8 + b[34], b[36])
  }

  /** The packed layout loses nothing: decoding the bytes of a key gives the key. */
  lemma KeyBytesRoundTrip(k: FlowKey)
    ensures KeyFromBytes(KeyBytes(k)) == k
  {
    var b := KeyBytes(k);
    assert b[0..16] == k.srcIp;
    assert b[16..32] == k.dstIp;
  }

  /** Byte-wise comparison over the packed key is exact field equality:
      two keys have the same bytes iff all five fields are equal. */
  lemma KeyBytesEqualIff(a: FlowKey, b: FlowKey)
    ensures KeyBytes(a) == KeyBytes(b) <==> a == b
  {
    if KeyBytes(a) == KeyBytes(b) {
      KeyBytesRoundTrip(a);
      KeyBytesRoundTrip(b);
    }
  }

  /** The key of the opposite direction of the same conversation. */
  function Reversed(k: FlowKey): FlowKey
  {
    FlowKey(k.dstIp, k.srcIp, k.dstPort, k.srcPort, k.proto)
  }

  /** No normalisation: the reverse direction is a different key unless
      both endpoints are the same address and port. */
  lemma ReversedIsDistinct(k: FlowKey)
    ensures Reversed(k) == k <==> k.srcIp == k.dstIp && k.srcPort == k.dstPort
    ensures Reversed(Reversed(k)) == k
  {
  }
}
