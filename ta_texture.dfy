/**
 * The twiddle table and the twiddled texture scatter of the Tile
 * Accelerator driver (homebrew/libnaomi/ta.c): where each source halfword
 * of a 256x256 texture lands in texture memory.
 */
module TaTexture {
  import opened Twiddle

  /** `twiddletab` after `_ta_init_twiddletab`: entry k is `TwiddleEntry` of k. */
  ghost predicate TwiddleReady(tab: array<bv32>)
    reads tab
  {
    tab.Length == 1024 && forall k :: 0 <= k < 1024 ==> tab[k] == TwiddleEntry(Bits(k))
  }

  /** `_ta_init_twiddletab`: fills the table. */
  method InitTwiddleTab(tab: array<bv32>)
    requires tab.Length == 1024
    modifies tab
    ensures TwiddleReady(tab)
  {
    for x := 0 to 1024
      invariant forall k :: 0 <= k < x ==> tab[k] == TwiddleEntry(Bits(k))
    {
      tab[x] := TwiddleEntry(Bits(x));
    }
  }

  /** The table read back: entries 0..3 are 0, 1, 4, 5 and distinct indices hold distinct entries. */
  lemma TwiddleTableFacts(tab: array<bv32>, a: nat, b: nat)
    requires TwiddleReady(tab) && a < 1024 && b < 1024 && a != b
    ensures tab[0] == 0 && tab[1] == 1 && tab[2] == 4 && tab[3] == 5
    ensures tab[a] != tab[b]
  {
    TwiddleFirstEntries();
    assert Bits(1) == 1 && Bits(2) == 2 && Bits(3) == 3;
    BitsBelow(a);
    BitsBelow(b);
    BitsDistinct(a, b);
    if tab[a] == tab[b] {
      TwiddleInjective(Bits(a), Bits(b));
    }
  }

  /** A (row, column) pair the loader visits: row i < 256, even column j < 256. */
  predicate Texel(i: int, j: int) {
    0 <= i < 256 && 0 <= j < 256 && j % 2 == 0
  }

  /** Halfword of the source the loader reads for (i, j): `(j + i*256) >> 1`. */
  function SrcWord(i: int, j: int): (s: int)
    requires Texel(i, j)
    ensures 0 <= s < 0x8000 && s == i * 128 + j / 2
  {
    (j + i * 256) / 2
  }

  /** Different pairs read different source halfwords, and every halfword below 0x8000 is read. */
  lemma SrcWordBijective(a: int, b: int, i: int, j: int, s: int)
    requires Texel(a, b) && Texel(i, j) && (a != i || b != j)
    requires 0 <= s < 0x8000
    ensures SrcWord(a, b) != SrcWord(i, j)
    ensures Texel(s / 128, 2 * (s % 128)) && SrcWord(s / 128, 2 * (s % 128)) == s
  {
  }

  lemma TableIndex(tab: array<bv32>, i: int, j: int)
    requires TwiddleReady(tab) && Texel(i, j)
    ensures Pair(Bits(i), Bits(j))
    ensures tab[i] | (tab[j] >> 1) == TexIndex(Bits(i), Bits(j)) && TexIndex(Bits(i), Bits(j)) < 0x8000
  {
    BitsBelow(i);
    BitsBelow(j);
    BitsParity(j);
    TexIndexRoundTrip(Bits(i), Bits(j));
  }

  /** The halfword `ta_texture_load` stores for (i, j): `twiddletab[i] | (twiddletab[j] >> 1)`. */
  function TexelIndex(tab: array<bv32>, i: int, j: int): (d: int)
    reads tab
    requires TwiddleReady(tab) && Texel(i, j)
    ensures 0 <= d < 0x8000
  {
    TableIndex(tab, i, j);
    Slot(tab[i] | (tab[j] >> 1))
  }

  /** Read through a filled table, the store address is the twiddled address of the pair. */
  lemma TexelIsDest(tab: array<bv32>, i: int, j: int)
    requires TwiddleReady(tab) && Texel(i, j)
    ensures Pair(Bits(i), Bits(j)) && TexelIndex(tab, i, j) == Dest(Bits(i), Bits(j))
  {
    TableIndex(tab, i, j);
  }

  /** Distinct pairs are stored to distinct halfwords: no store overwrites another. */
  lemma TexelInjective(tab: array<bv32>, a: int, b: int, i: int, j: int)
    requires TwiddleReady(tab) && Texel(a, b) && Texel(i, j) && (a != i || b != j)
    ensures TexelIndex(tab, a, b) != TexelIndex(tab, i, j)
  {
    TexelIsDest(tab, a, b);
    TexelIsDest(tab, i, j);
    if a != i {
      BitsDistinct(a, i);
    } else {
      BitsDistinct(b, j);
    }
    DestInjective(Bits(a), Bits(b), Bits(i), Bits(j));
  }

  /** Every halfword below 0x8000 is the destination of some pair. */
  lemma TexelsCover(tab: array<bv32>, k: bv32)
    requires TwiddleReady(tab) && k < 0x8000
    ensures exists a, b :: Texel(a, b) && TexelIndex(tab, a, b) == Slot(k)
  {
    DestOnto(k);
    var a, b := CountersOf(k);
    TexelIsDest(tab, a, b);
  }

  /** The loop counters whose patterns are the row and column read back from halfword k. */
  lemma CountersOf(k: bv32) returns (a: int, b: int)
    requires k < 0x8000
    ensures Texel(a, b) && Bits(a) == Row(k) && Bits(b) == Col(k)
  {
    TexIndexOnto(k);
    var r, c := Row(k), Col(k);
    BitsOfValue(r);
    BitsOfValue(c);
    BelowAsInt(r, 256);
    BelowAsInt(c, 256);
    a, b := r as int, c as int;
    BitsParity(b);
  }

  /** Every pair before (i, j) in loop order holds its source halfword. */
  ghost predicate Loaded(tab: array<bv32>, tex: seq<bv16>, src: seq<bv16>, i: int, j: int)
    reads tab
    requires TwiddleReady(tab) && |tex| >= 0x8000 && |src| >= 0x8000
  {
    forall a, b :: Texel(a, b) && (a < i || (a == i && b < j)) ==> tex[TexelIndex(tab, a, b)] == src[SrcWord(a, b)]
  }

  lemma LoadedAt(tab: array<bv32>, prev: seq<bv16>, cur: seq<bv16>, src: seq<bv16>, i: int, j: int, a: int, b: int)
    requires TwiddleReady(tab) && |prev| >= 0x8000 && |src| >= 0x8000 && Texel(i, j)
    requires Loaded(tab, prev, src, i, j)
    requires cur == prev[TexelIndex(tab, i, j) := src[SrcWord(i, j)]]
    requires Texel(a, b) && (a < i || (a == i && b < j + 2))
    ensures cur[TexelIndex(tab, a, b)] == src[SrcWord(a, b)]
  {
    if a != i || b != j {
      TexelInjective(tab, a, b, i, j);
    }
  }

  /** One store keeps every earlier pair in place and adds pair (i, j). */
  lemma LoadedStep(tab: array<bv32>, prev: seq<bv16>, cur: seq<bv16>, src: seq<bv16>, i: int, j: int)
    requires TwiddleReady(tab) && |prev| >= 0x8000 && |src| >= 0x8000 && Texel(i, j)
    requires Loaded(tab, prev, src, i, j)
    requires cur == prev[TexelIndex(tab, i, j) := src[SrcWord(i, j)]]
    ensures Loaded(tab, cur, src, i, j + 2)
  {
    forall a, b | Texel(a, b) && (a < i || (a == i && b < j + 2))
      ensures cur[TexelIndex(tab, a, b)] == src[SrcWord(a, b)]
    {
      LoadedAt(tab, prev, cur, src, i, j, a, b);
    }
  }

  /** A finished row i is the same as row i + 1 not yet started. */
  lemma NextRow(tab: array<bv32>, tex: seq<bv16>, src: seq<bv16>, i: int)
    requires TwiddleReady(tab) && |tex| >= 0x8000 && |src| >= 0x8000
    requires Loaded(tab, tex, src, i, 256)
    ensures Loaded(tab, tex, src, i + 1, 0)
  {
  }

  /** The texture sizes `ta_texture_load` accepts. */
  predicate TextureSize(size: int) {
    size == 8 || size == 16 || size == 32 || size == 64 || size == 128 || size == 256 || size == 512 || size == 1024
  }
}
