/**
 * The key index the flow table is built on (rte_hash created with
 * MAX_FLOWS entries over sizeof(struct flow6_key) bytes, src/main.c:146-158).
 *
 * Its hashing is not modelled. What the flow tracker relies on is: a key
 * maps to a position in [0, MAX_FLOWS); distinct keys have distinct
 * positions; adding a key takes a position from a FIFO ring of free
 * positions and fails only when every position is taken; deleting a key
 * returns its position to the ring.
 */
module HashIndex {
  import opened Flow

  /** MAX_FLOWS: the capacity of the index and the length of the slot array. */
  const MAX_FLOWS: nat := 1024

  /** Error codes returned by rte_hash: -ENOENT and -ENOSPC. */
  const ENOENT_RESULT: int := -2
  const ENOSPC_RESULT: int := -28

  /** The index's own consistency: every position is in range and used by
      at most one key; the free ring holds distinct unused positions; used
      and free positions together number MAX_FLOWS. */
  ghost predicate IndexValid(positions: map<FlowKey, int>, free: seq<int>)
  {
    && |free| + |positions| == MAX_FLOWS
    && (forall k | k in positions :: 0 <= positions[k] < MAX_FLOWS)
    && (forall k1, k2 | k1 in positions && k2 in positions && positions[k1] == positions[k2] :: k1 == k2)
    && (forall j | 0 <= j < |free| :: 0 <= free[j] < MAX_FLOWS && free[j] !in positions.Values)
    && (forall j1, j2 | 0 <= j1 < j2 < |free| :: free[j1] != free[j2])
  }

  /** The free ring after rte_hash_create: every position, in order. */
  function AllPositions(): (free: seq<int>)
    ensures |free| == MAX_FLOWS
    ensures forall j | 0 <= j < |free| :: free[j] == j
  {
    seq(MAX_FLOWS, j => j)
  }

  lemma EmptyIndexValid()
    ensures IndexValid(map[], AllPositions())
  {
  }

  /** Removing a present key keeps the index consistent: its position goes
      back on the ring. */
  lemma {:induction false} DeleteKeepsIndexValid(positions: map<FlowKey, int>, free: seq<int>, k: FlowKey)
    requires IndexValid(positions, free)
    requires k in positions
    ensures IndexValid(positions - {k}, free + [positions[k]])
  {
    var p := positions[k];
    var rest := positions - {k};
    assert positions.Keys == rest.Keys + {k};
    assert |rest| == |positions| - 1;
    forall k' | k' in rest
      ensures rest[k'] != p
    {
      assert k' != k;
    }
    forall j | 0 <= j < |free|
      ensures free[j] !in rest.Values
    {
      assert free[j] !in positions.Values;
    }
    forall j1, j2 | 0 <= j1 < j2 < |free + [p]|
      ensures (free + [p])[j1] != (free + [p])[j2]
    {
      if j2 == |free| {
        assert p in positions.Values;
      }
    }
  }

  /** Adding an absent key at the head of the ring keeps the index
      consistent. */
  lemma {:induction false} AddKeepsIndexValid(positions: map<FlowKey, int>, free: seq<int>, k: FlowKey)
    requires IndexValid(positions, free)
    requires k !in positions && free != []
    ensures IndexValid(positions[k := free[0]], free[1..])
  {
    var p := free[0];
    var grown := positions[k := p];
    forall j, k' | 1 <= j < |free| && k' in grown
      ensures grown[k'] != free[j]
    {
      if k' != k {
        assert positions[k'] in positions.Values;
      }
    }
    forall k1, k2 | k1 in grown && k2 in grown && k1 != k2
      ensures grown[k1] != grown[k2]
    {
      if k1 == k {
        assert positions[k2] in positions.Values;
      } else if k2 == k {
        assert positions[k1] in positions.Values;
      }
    }
    assert forall j | 0 <= j < |free[1..]| :: free[1..][j] == free[j + 1];
  }

  /** An index with every position in use is at capacity. */
  lemma FullIffNoFree(positions: map<FlowKey, int>, free: seq<int>)
    requires IndexValid(positions, free)
    ensures free == [] <==> |positions| == MAX_FLOWS
    ensures |positions| <= MAX_FLOWS
  {
  }

  /** The index as an object the flow tracker mutates in place. */
  class FlowIndex {
    var positions: map<FlowKey, int>
    var free: seq<int>

    ghost predicate Valid()
      reads this
    {
      IndexValid(positions, free)
    }

    /** rte_hash_create: an empty index with every position free. */
    constructor ()
      ensures Valid()
      ensures positions == map[] && free == AllPositions()
    {
      positions := map[];
      free := AllPositions();
      EmptyIndexValid();
    }

    /** rte_hash_lookup: the key's position, or -ENOENT when it is absent. */
    method Lookup(k: FlowKey) returns (r: int)
      requires Valid()
      ensures 0 <= r ==> k in positions && r == positions[k] && r < MAX_FLOWS
      ensures r < 0 ==> k !in positions && r == ENOENT_RESULT
    {
      if k in positions {
        r := positions[k];
      } else {
        r := ENOENT_RESULT;
      }
    }

    /** rte_hash_add_key: a key already present keeps its position; a new
        key takes the head of the free ring, or -ENOSPC is returned when no
        position is free. */
    method AddKey(k: FlowKey) returns (r: int)
      requires Valid()
      modifies this
      ensures Valid()
      ensures k in old(positions) ==> r == old(positions)[k] && positions == old(positions) && free == old(free)
      ensures k !in old(positions) && old(free) == [] ==>
        r == ENOSPC_RESULT && positions == old(positions) && free == old(free)
      ensures k !in old(positions) && old(free) != [] ==>
        r == old(free)[0] && positions == old(positions)[k := r] && free == old(free)[1..]
      ensures 0 <= r < MAX_FLOWS || r == ENOSPC_RESULT
    {
      if k in positions {
        r := positions[k];
      } else if free == [] {
        r := ENOSPC_RESULT;
      } else {
        AddKeepsIndexValid(positions, free, k);
        r := free[0];
        positions := positions[k := r];
        free := free[1..];
      }
    }

    /** rte_hash_del_key: removes a present key and frees its position;
        an absent key is reported with -ENOENT and changes nothing. */
    method DelKey(k: FlowKey) returns (r: int)
      requires Valid()
      modifies this
      ensures Valid()
      ensures k in old(positions) ==> r == old(positions)[k] && positions == old(positions) - {k} && free == old(free) + [r]
      ensures k !in old(positions) ==> r == ENOENT_RESULT && positions == old(positions) && free == old(free)
    {
      if k in positions {
        DeleteKeepsIndexValid(positions, free, k);
        r := positions[k];
        positions := positions - {k};
        free := free + [r];
      } else {
        r := ENOENT_RESULT;
      }
    }
  }
}
