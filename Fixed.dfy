/**
 * Fixed-width unsigned integers of C (uint8_t, uint16_t, uint32_t, uint64_t)
 * and the wrap-around arithmetic the flow tracker performs on them.
 */
module Fixed {

  const TWO_8: int := 0x100
  const TWO_16: int := 0x1_0000
  const TWO_64: int := 0x1_0000_0000_0000_0000

  type byte = x: int | 0 <= x < 0x100
  type u16 = x: int | 0 <= x < 0x1_0000
  type u32 = x: int | 0 <= x < 0x1_0000_0000
  type u64 = x: int | 0 <= x < 0x1_0000_0000_0000_0000

  /** A mathematical count reduced to uint64_t: repeatedly less 2^64. */
  function Wrap64(x: nat): u64
    decreases x
  {
    if x < TWO_64 then x else Wrap64(x - TWO_64)
  }

  /** Wrap64 is reduction modulo 2^64. */
  lemma {:induction false} Wrap64IsMod(x: nat)
    ensures Wrap64(x) == x % TWO_64
    decreases x
  {
    if x >= TWO_64 {
      Wrap64IsMod(x - TWO_64);
    }
  }

  /** uint64_t addition: the sum reduced to 64 bits. */
  function Add64(a: u64, b: u64): (r: u64)
    ensures r == Wrap64(a + b)
  {
    if a + b < TWO_64 then a + b else a + b - TWO_64
  }

  /** uint64_t subtraction: the difference modulo 2^64 (never negative). */
  function Sub64(a: u64, b: u64): (r: u64)
    ensures Wrap64(r + b) == a
    ensures a >= b ==> r == a - b
  {
    if a >= b then a - b else a - b + TWO_64
  }

  /** uint64_t multiplication by a small constant factor, modulo 2^64. */
  function Mul64(c: nat, a: u64): (r: u64)
    ensures r == (c * a) % TWO_64
    ensures c * a < TWO_64 ==> r == c * a
  {
    Wrap64IsMod(c * a);
    Wrap64(c * a)
  }

  /** Unsigned division: the quotient rounded toward zero. */
  function Div(a: nat, b: nat): (r: nat)
    requires b > 0
    ensures r * b <= a < r * b + b
  {
    a / b
  }

  /** A count already below 2^64 is its own wrapped value. */
  lemma Wrap64Small(x: u64)
    ensures Wrap64(x) == x
  {
  }

  /** One more wrapping addition onto a wrapped count wraps the larger count. */
  lemma {:induction false} Add64OfWrap64(x: nat, y: u64)
    ensures Add64(Wrap64(x), y) == Wrap64(x + y)
    decreases x
  {
    if x >= TWO_64 {
      Add64OfWrap64(x - TWO_64, y);
      assert Wrap64(x + y) == Wrap64(x - TWO_64 + y);
    }
  }

  /** A 16-bit value read from two bytes in network (big-endian) order,
      as rte_be_to_cpu_16 of the wire field gives it. */
  function BigEndian16(hi: byte, lo: byte): (r: u16)
    ensures r / TWO_8 == hi && r % TWO_8 == lo
  {
    hi * TWO_8 + lo
  }

  /** The high-order byte of a 16-bit value. */
  function High(v: u16): byte { v / TWO_8 }

  /** The low-order byte of a 16-bit value. */
  function Low(v: u16): byte { v % TWO_8 }

  /** Writing a port in network order and reading it back gives the port. */
  lemma BigEndian16RoundTrip(v: u16)
    ensures BigEndian16(High(v), Low(v)) == v
  {
  }

  /** Two byte pairs read as the same big-endian value are the same pair. */
  lemma BigEndian16Injective(h1: byte, l1: byte, h2: byte, l2: byte)
    ensures BigEndian16(h1, l1) == BigEndian16(h2, l2) <==> h1 == h2 && l1 == l2
  {
  }
}
