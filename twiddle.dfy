/**
 * The Morton ("twiddle") interleaving used by the Tile Accelerator's
 * texture loader (homebrew/libnaomi/ta.c). A table entry spreads the ten
 * low bits of its index so that bit i lands on bit 2i; the loader then
 * forms a texel address from two such entries.
 *
 * Everything here is 32-bit unsigned arithmetic, written on bv32.
 */
module Twiddle {

  /** The value `_ta_init_twiddletab` stores at index x (ta.c:326-336). */
  function TwiddleEntry(x: bv32): bv32 {
    (x & 1) | ((x & 2) << 1) | ((x & 4) << 2) | ((x & 8) << 3) | ((x & 16) << 4) |
    ((x & 32) << 5) | ((x & 64) << 6) | ((x & 128) << 7) | ((x & 256) << 8) | ((x & 512) << 9)
  }

  /** Gathers bits 0, 2, ..., 18 of t into bits 0..9: the inverse of the spreading. */
  function EvenBits(t: bv32): bv32 {
    (t & 1) | ((t >> 1) & 2) | ((t >> 2) & 4) | ((t >> 3) & 8) | ((t >> 4) & 16) |
    ((t >> 5) & 32) | ((t >> 6) & 64) | ((t >> 7) & 128) | ((t >> 8) & 256) | ((t >> 9) & 512)
  }

  /** Bit i of x moves to bit 2i; odd positions and everything above bit 19 stay clear. */
  lemma TwiddleMovesBits(x: bv32, i: bv32)
    requires x < 1024 && i < 10
    ensures (TwiddleEntry(x) >> (2 * i)) & 1 == (x >> i) & 1
    ensures (TwiddleEntry(x) >> (2 * i + 1)) & 1 == 0
    ensures TwiddleEntry(x) < 0x10_0000
  {
  }

  lemma TwiddleRoundTrip(x: bv32)
    requires x < 1024
    ensures EvenBits(TwiddleEntry(x)) == x
  {
  }

  lemma TwiddleInjective(x: bv32, y: bv32)
    requires x < 1024 && y < 1024 && TwiddleEntry(x) == TwiddleEntry(y)
    ensures x == y
  {
    TwiddleRoundTrip(x);
    TwiddleRoundTrip(y);
  }

  lemma TwiddleFirstEntries()
    ensures TwiddleEntry(0) == 0 && TwiddleEntry(1) == 1
    ensures TwiddleEntry(2) == 4 && TwiddleEntry(3) == 5
  {
  }

  /** A (row, column) pair visited by the loader: row i < 256, even column j < 256. */
  predicate Pair(i: bv32, j: bv32) {
    i < 256 && j < 256 && j & 1 == 0
  }

  /** Texel address the loader writes for (i, j), from the table entries (ta.c:486). */
  function TexIndex(i: bv32, j: bv32): bv32 {
    TwiddleEntry(i) | (TwiddleEntry(j) >> 1)
  }

  /** Row and column recovered from a texel address. */
  function Row(k: bv32): bv32 { EvenBits(k) }
  function Col(k: bv32): bv32 { EvenBits(k << 1) }

  lemma TexIndexRoundTrip(i: bv32, j: bv32)
    requires Pair(i, j)
    ensures TexIndex(i, j) < 0x8000
    ensures Row(TexIndex(i, j)) == i && Col(TexIndex(i, j)) == j
  {
  }

  lemma TexIndexOnto(k: bv32)
    requires k < 0x8000
    ensures Pair(Row(k), Col(k)) && TexIndex(Row(k), Col(k)) == k
  {
  }

  /** A 16-bit halfword address below 0x8000, as an array index. */
  function Slot(k: bv32): (n: int)
    requires k < 0x8000
    ensures 0 <= n < 0x8000
  {
    BelowAsInt(k, 0x8000);
    k as int
  }

  /** A counter below one of the loop bounds (a byte, a table index, a halfword) is, as an integer, below it too. */
  lemma BelowAsInt(x: bv32, bound: bv32)
    requires bound == 256 || bound == 1024 || bound == 0x8000
    requires x < bound
    ensures x as int < bound as int
  {
    var n := x as int;
    if bound == 256 {
      assert x < 256;
      assert n as bv32 == x;
    } else if bound == 1024 {
      assert x < 1024;
      assert n as bv32 == x;
    } else {
      assert x < 0x8000;
      assert n as bv32 == x;
    }
  }

  lemma BvIntRoundTrip(a: bv32)
    ensures (a as int) as bv32 == a
  {
  }

  lemma SlotInjective(a: bv32, b: bv32)
    requires a < 0x8000 && b < 0x8000 && Slot(a) == Slot(b)
    ensures a == b
  {
    BvIntRoundTrip(a);
    BvIntRoundTrip(b);
  }

  /** Halfword the loader stores for a pair. */
  function Dest(i: bv32, j: bv32): (n: int)
    requires Pair(i, j)
    ensures 0 <= n < 0x8000
  {
    TexIndexRoundTrip(i, j);
    Slot(TexIndex(i, j))
  }

  /** Distinct pairs go to distinct halfwords, so no store overwrites another. */
  lemma DestInjective(a: bv32, b: bv32, i: bv32, j: bv32)
    requires Pair(a, b) && Pair(i, j) && (a != i || b != j)
    ensures Dest(a, b) != Dest(i, j)
  {
    TexIndexRoundTrip(a, b);
    TexIndexRoundTrip(i, j);
    if Dest(a, b) == Dest(i, j) {
      SlotInjective(TexIndex(a, b), TexIndex(i, j));
    }
  }

  /** Every halfword below 0x8000 is the destination of the pair read back from it. */
  lemma DestOnto(k: bv32)
    requires k < 0x8000
    ensures Pair(Row(k), Col(k)) && Dest(Row(k), Col(k)) == Slot(k)
  {
    TexIndexOnto(k);
  }

  /**
   * The 32-bit pattern of a non-negative C `int`, the type of the loop
   * counters and table indices in ta.c. Defined by counting, so that a
   * loop can keep it in step with its counter.
   */
  function Bits(n: nat): bv32 {
    if n == 0 then 0 else Bits(n - 1) + 1
  }

  lemma StepValue(x: bv32)
    requires x < 1024
    ensures (x + 1) as int == x as int + 1
  {
  }

  lemma BelowFromValue(x: bv32, n: int)
    requires x as int == n && n < 1024
    ensures x < 1024
  {
  }

  /** Up to 1024 the pattern has the counter's value (enough for every table index here). */
  lemma {:induction false} BitsValue(n: nat)
    requires n <= 1024
    ensures Bits(n) as int == n
  {
    if n > 0 {
      BitsValue(n - 1);
      BelowFromValue(Bits(n - 1), n - 1);
      StepValue(Bits(n - 1));
    }
  }

  lemma ByteFromValue(x: bv32, n: int)
    requires x as int == n && n < 256
    ensures x < 256
  {
  }

  /** Counters below 256 and below 1024 give patterns below the same bounds. */
  lemma BitsBelow(n: nat)
    requires n < 1024
    ensures Bits(n) < 1024
    ensures n < 256 ==> Bits(n) < 256
  {
    BitsValue(n);
    BelowFromValue(Bits(n), n);
    if n < 256 {
      ByteFromValue(Bits(n), n);
    }
  }

  /** Bit 0 of the pattern is the counter's parity. */
  lemma {:induction false} BitsParity(n: nat)
    ensures Bits(n) & 1 == if n % 2 == 0 then 0 else 1
  {
    if n > 0 {
      BitsParity(n - 1);
    }
  }

  /** Every value below 1024 is the pattern of its unsigned value. */
  lemma BitsOfValue(x: bv32)
    requires x < 1024
    ensures x as int < 1024 && Bits(x as int) == x
  {
    BelowAsInt(x, 1024);
    BitsValue(x as int);
    BvIntRoundTrip(x);
    BvIntRoundTrip(Bits(x as int));
  }

  /** Different counters up to 1024 have different patterns. */
  lemma BitsDistinct(a: nat, b: nat)
    requires a <= 1024 && b <= 1024 && a != b
    ensures Bits(a) != Bits(b)
  {
    BitsValue(a);
    BitsValue(b);
  }
}
