/**
 * The tile-descriptor table, the TILE_CLIP word, the background clear and
 * the palette bank lookup of the Tile Accelerator (TA) driver,
 * homebrew/libnaomi/ta.c.
 *
 * The descriptor table tells the TA, tile by tile, where each tile's
 * display lists live. It is an array of unsigned 32-bit words: a dummy
 * record and then one six-word record per 32x32 tile.
 */
module TaDescriptors {
  import opened Wrappers
  import opened Twiddle
  import opened Arith

  /** An unsigned 32-bit word, as stored in the descriptor table. */
  type Word = x: int | 0 <= x < 0x1_0000_0000

  /** A sub-list pointer word with only bit 31 set: "this list is empty". */
  const ListEmpty: Word := 0x8000_0000
  /** Control word of the leading dummy record. */
  const DummyControl: Word := 0x1000_0000
  /** Control-word flag that ends the table. */
  const EndOfBuffer: bv32 := 0x8000_0000
  /** Control-word flag that asks for translucent auto-sorting. */
  const AutoSort: bv32 := 0x2000_0000
  /** TA_OPAQUE_OBJECT_BUFFER_SIZE: bytes of opaque list space per tile. */
  const OpaqueSlot: int := 64

  /** The record in front of the real tiles. */
  function DummyRecord(): (r: seq<Word>)
    ensures |r| == 6 && r[0] == DummyControl
    ensures forall k :: 1 <= k < 6 ==> r[k] == ListEmpty
  {
    [DummyControl, ListEmpty, ListEmpty, ListEmpty, ListEmpty, ListEmpty]
  }

  /** Control word of a tile: end-of-buffer flag, auto-sort, tile y shifted by 8, tile x shifted by 2. */
  function ControlBits(last: bool, x: bv32, y: bv32): bv32 {
    (if last then EndOfBuffer else 0) | AutoSort | (y << 8) | (x << 2)
  }

  /** Whether tile (x, y) is the last one of a w-by-h grid. */
  predicate IsLastTile(w: int, h: int, x: int, y: int) {
    x == w - 1 && y == h - 1
  }

  function ControlWord(w: int, h: int, x: nat, y: nat): Word {
    ControlBits(IsLastTile(w, h, x, y), Bits(x), Bits(y)) as int
  }

  /**
   * Opaque list pointer of tile (x, y): the low 24 bits of the buffer
   * address plus 64 bytes per tile in row-major tile order, as an unsigned
   * 32-bit sum.
   */
  function OpaquePointer(base: Word, w: int, x: nat, y: nat): Word {
    (base % 0x100_0000 + TileSlot(w, x, y) * OpaqueSlot) % 0x1_0000_0000
  }

  /** The row-major index x + y*w of tile (x, y), counted row by row. */
  function TileSlot(w: int, x: nat, y: nat): int {
    if y == 0 then x else TileSlot(w, x, y - 1) + w
  }

  lemma {:induction false} TileSlotValue(w: int, x: nat, y: nat)
    ensures TileSlot(w, x, y) == x + y * w
  {
    if y > 0 {
      TileSlotValue(w, x, y - 1);
      MulSucc(y - 1, w);
    }
  }

  /** A tile position: column x, row y. */
  datatype Tile = Tile(x: nat, y: nat)

  function TileRecord(base: Word, w: int, h: int, t: Tile): seq<Word> {
    [ControlWord(w, h, t.x, t.y), OpaquePointer(base, w, t.x, t.y), ListEmpty, ListEmpty, ListEmpty, ListEmpty]
  }

  /** Tiles (x, 0) .. (x, n - 1), in the order of the inner loop. */
  function ColumnTiles(x: nat, n: nat): seq<Tile> {
    if n == 0 then [] else ColumnTiles(x, n - 1) + [Tile(x, n - 1)]
  }

  /** Columns 0 .. m - 1 of h tiles each, in the order of the outer loop. */
  function GridTiles(h: nat, m: nat): seq<Tile> {
    if m == 0 then [] else GridTiles(h, m - 1) + ColumnTiles(m - 1, h)
  }

  /** Number of tiles the loops visit; none when either dimension is not positive. */
  function TileCount(w: int, h: int): nat {
    if w <= 0 || h <= 0 then 0 else w * h
  }

  /** The tiles `_ta_create_tile_descriptors` visits, in order. */
  function TileOrder(w: int, h: int): seq<Tile> {
    if w <= 0 || h <= 0 then [] else GridTiles(h, w)
  }

  /** The records of a sequence of tiles, back to back. */
  function Records(base: Word, w: int, h: int, ts: seq<Tile>): seq<Word> {
    if |ts| == 0 then [] else Records(base, w, h, ts[..|ts| - 1]) + TileRecord(base, w, h, ts[|ts| - 1])
  }

  /** The whole table `_ta_create_tile_descriptors` writes for a w-by-h tile grid. */
  function TileTable(base: Word, w: int, h: int): seq<Word> {
    DummyRecord() + Records(base, w, h, TileOrder(w, h))
  }

  lemma {:induction false} ColumnTilesAt(x: nat, n: nat)
    ensures |ColumnTiles(x, n)| == n
    ensures forall y :: 0 <= y < n ==> ColumnTiles(x, n)[y] == Tile(x, y)
  {
    if n > 0 {
      ColumnTilesAt(x, n - 1);
    }
  }

  lemma {:induction false} GridTilesLength(h: nat, m: nat)
    ensures |GridTiles(h, m)| == m * h
  {
    if m > 0 {
      GridTilesLength(h, m - 1);
      ColumnTilesLength(m - 1, h);
      assert |GridTiles(h, m)| == (m - 1) * h + h;
      MulSucc(m - 1, h);
    }
  }

  lemma {:induction false} ColumnTilesLength(x: nat, n: nat)
    ensures |ColumnTiles(x, n)| == n
  {
    if n > 0 {
      ColumnTilesLength(x, n - 1);
    }
  }

  /** In the loop order, tile (x, y) comes at position x*h + y. */
  lemma {:induction false} GridTilesAt(h: nat, m: nat, x: nat, y: nat)
    requires x < m && y < h
    ensures |GridTiles(h, m)| == m * h && x * h + y < m * h
    ensures GridTiles(h, m)[x * h + y] == Tile(x, y)
  {
    GridTilesLength(h, m);
    GridTilesLength(h, m - 1);
    ColumnTilesAt(m - 1, h);
    MulSucc(m - 1, h);
    if x < m - 1 {
      GridTilesAt(h, m - 1, x, y);
    }
  }

  /** One more column of the outer loop adds h tiles and stays within the m columns. */
  lemma {:induction false} GridTilesGrow(h: nat, x: nat, m: nat)
    requires x < m
    ensures |GridTiles(h, x + 1)| == |GridTiles(h, x)| + h
    ensures |GridTiles(h, x + 1)| <= |GridTiles(h, m)|
  {
    ColumnTilesLength(x, h);
    if x + 1 < m {
      GridTilesGrow(h, x, m - 1);
      ColumnTilesLength(m - 1, h);
    }
  }

  lemma RecordsAppend(base: Word, w: int, h: int, ts: seq<Tile>, t: Tile)
    ensures Records(base, w, h, ts + [t]) == Records(base, w, h, ts) + TileRecord(base, w, h, t)
  {
    assert (ts + [t])[..|ts|] == ts;
  }

  lemma {:induction false} RecordsConcat(base: Word, w: int, h: int, a: seq<Tile>, b: seq<Tile>)
    ensures Records(base, w, h, a + b) == Records(base, w, h, a) + Records(base, w, h, b)
  {
    if |b| > 0 {
      var b0 := b[..|b| - 1];
      assert a + b == (a + b0) + [b[|b| - 1]];
      assert b == b0 + [b[|b| - 1]];
      RecordsConcat(base, w, h, a, b0);
      RecordsAppend(base, w, h, a + b0, b[|b| - 1]);
      RecordsAppend(base, w, h, b0, b[|b| - 1]);
    } else {
      assert a + b == a;
    }
  }

  lemma {:induction false} RecordsLength(base: Word, w: int, h: int, ts: seq<Tile>)
    ensures |Records(base, w, h, ts)| == 6 * |ts|
  {
    if |ts| > 0 {
      RecordsLength(base, w, h, ts[..|ts| - 1]);
    }
  }

  /** Record k of the sequence belongs to the k-th tile. */
  lemma {:induction false} RecordsAt(base: Word, w: int, h: int, ts: seq<Tile>, k: nat)
    requires k < |ts|
    ensures |Records(base, w, h, ts)| == 6 * |ts|
    ensures Records(base, w, h, ts)[6 * k .. 6 * k + 6] == TileRecord(base, w, h, ts[k])
  {
    RecordsLength(base, w, h, ts);
    var prefix := ts[..|ts| - 1];
    RecordsLength(base, w, h, prefix);
    if k < |ts| - 1 {
      RecordsAt(base, w, h, prefix, k);
      assert Records(base, w, h, ts)[6 * k .. 6 * k + 6] == Records(base, w, h, prefix)[6 * k .. 6 * k + 6];
    }
  }

  /** The table holds the dummy record and then one six-word record per tile. */
  lemma TileTableLength(base: Word, w: int, h: int)
    ensures |TileOrder(w, h)| == TileCount(w, h)
    ensures |TileTable(base, w, h)| == 6 + 6 * TileCount(w, h)
    ensures TileTable(base, w, h)[..6] == DummyRecord()
  {
    RecordsLength(base, w, h, TileOrder(w, h));
    if w > 0 && h > 0 {
      GridTilesLength(h, w);
    }
  }

  /** Tile (x, y) is record 1 + x*h + y: x is the outer loop, y the inner one. */
  lemma TileTableRecordAt(base: Word, w: int, h: int, x: nat, y: nat)
    requires x < w && y < h
    ensures |TileTable(base, w, h)| == 6 + 6 * TileCount(w, h)
    ensures 1 + x * h + y < 1 + TileCount(w, h)
    ensures TileTable(base, w, h)[6 * (1 + x * h + y) .. 6 * (1 + x * h + y) + 6] == TileRecord(base, w, h, Tile(x, y))
  {
    GridTilesAt(h, w, x, y);
    TableRecordAt(base, w, h, x * h + y);
  }

  /** Record 1 + k of the table belongs to the k-th tile of the loop order. */
  lemma TableRecordAt(base: Word, w: int, h: int, k: nat)
    requires k < |TileOrder(w, h)|
    ensures |TileOrder(w, h)| == TileCount(w, h)
    ensures |TileTable(base, w, h)| == 6 + 6 * TileCount(w, h)
    ensures TileTable(base, w, h)[6 * (1 + k) .. 6 * (1 + k) + 6] == TileRecord(base, w, h, TileOrder(w, h)[k])
  {
    TileTableLength(base, w, h);
    var recs := Records(base, w, h, TileOrder(w, h));
    RecordsAt(base, w, h, TileOrder(w, h), k);
    SliceAfter(DummyRecord(), recs, 6 * k);
  }

  lemma SliceAfter(p: seq<Word>, r: seq<Word>, i: nat)
    requires |p| == 6 && i + 6 <= |r|
    ensures (p + r)[6 + i .. 6 + i + 6] == r[i .. i + 6]
  {
  }

  /** The fields of a control word give back the tile position and the two flags. */
  lemma ControlBitsFields(last: bool, x: bv32, y: bv32)
    requires x < 64 && y < 64
    ensures (ControlBits(last, x, y) >> 2) & 0x3f == x
    ensures (ControlBits(last, x, y) >> 8) & 0x3f == y
    ensures ControlBits(last, x, y) & AutoSort != 0
    ensures ControlBits(last, x, y) & EndOfBuffer != 0 <==> last
    ensures ControlBits(last, x, y) & 0x5fff_c003 == 0
  {
  }

  /**
   * In a grid of at most 1024 by 1024 tiles, the end-of-buffer flag is set
   * on exactly one tile, the last one written, and the x and y fields hold
   * the tile position.
   */
  lemma EndOfBufferOnlyOnLastTile(w: int, h: int, x: nat, y: nat)
    requires x < w <= 1024 && y < h <= 1024
    ensures ControlBits(IsLastTile(w, h, x, y), Bits(x), Bits(y)) & EndOfBuffer != 0 <==> x == w - 1 && y == h - 1
    ensures (x == w - 1 && y == h - 1) <==> 1 + x * h + y == TileCount(w, h)
  {
    BitsBelow(x);
    BitsBelow(y);
    EndFlagAlone(IsLastTile(w, h, x, y), Bits(x), Bits(y));
    LastIndex(w, h, x, y);
  }

  /** Record 1 + x*h + y is the last one exactly for the last tile. */
  lemma LastIndex(w: int, h: int, x: nat, y: nat)
    requires x < w && y < h
    ensures (x == w - 1 && y == h - 1) <==> 1 + x * h + y == w * h
  {
    MulSucc(x, h);
    MulSucc(w - 1, h);
    MulMono(x + 1, w - 1 + 1, h);
    if x < w - 1 {
      MulMono(x + 1, w - 1, h);
    }
  }

  lemma EndFlagAlone(last: bool, x: bv32, y: bv32)
    requires x < 1024 && y < 1024
    ensures ControlBits(last, x, y) & EndOfBuffer != 0 <==> last
  {
  }

  /** Tile positions of a w-wide grid number the tiles without gaps or repeats. */
  lemma TileSlotInjective(w: int, h: int, x1: nat, y1: nat, x2: nat, y2: nat)
    requires x1 < w && x2 < w && y1 < h && y2 < h && (x1 != x2 || y1 != y2)
    ensures x1 + y1 * w != x2 + y2 * w
  {
    if y1 < y2 {
      RowsApart(w, x1, y1, x2, y2);
    } else if y2 < y1 {
      RowsApart(w, x2, y2, x1, y1);
    }
  }

  lemma RowsApart(w: int, x1: nat, y1: nat, x2: nat, y2: nat)
    requires x1 < w && y1 < y2
    ensures x1 + y1 * w < x2 + y2 * w
  {
    MulSucc(y1, w);
    MulMono(y1 + 1, y2, w);
  }

  /** Tile positions of a w-by-h grid fall below w*h. */
  lemma TileSlotBound(w: int, h: int, x: nat, y: nat)
    requires x < w && y < h
    ensures x + y * w < w * h
  {
    MulSucc(y, w);
    MulMono(y + 1, h, w);
    assert h * w == w * h;
  }

  /**
   * Different tiles get different opaque list slots, 64-byte aligned
   * relative to each other, as long as the buffer does not wrap past 2^32.
   */
  lemma OpaquePointersDistinct(base: Word, w: int, h: int, x1: nat, y1: nat, x2: nat, y2: nat)
    requires x1 < w && y1 < h && x2 < w && y2 < h && (x1 != x2 || y1 != y2)
    requires base % 0x100_0000 + w * h * OpaqueSlot <= 0x1_0000_0000
    ensures OpaquePointer(base, w, x1, y1) != OpaquePointer(base, w, x2, y2)
    ensures OpaquePointer(base, w, x1, y1) % OpaqueSlot == OpaquePointer(base, w, x2, y2) % OpaqueSlot
  {
    TileSlotInjective(w, h, x1, y1, x2, y2);
    TileSlotValue(w, x1, y1);
    TileSlotValue(w, x2, y2);
    OpaquePointerNoWrap(base, w, h, x1, y1);
    OpaquePointerNoWrap(base, w, h, x2, y2);
  }

  /** Below the wrap-around bound the pointer is the plain sum, and all pointers agree modulo 64. */
  lemma OpaquePointerNoWrap(base: Word, w: int, h: int, x: nat, y: nat)
    requires x < w && y < h
    requires base % 0x100_0000 + w * h * OpaqueSlot <= 0x1_0000_0000
    ensures OpaquePointer(base, w, x, y) == base % 0x100_0000 + TileSlot(w, x, y) * OpaqueSlot
    ensures OpaquePointer(base, w, x, y) % OpaqueSlot == base % 0x100_0000 % OpaqueSlot
  {
    TileSlotBound(w, h, x, y);
    TileSlotValue(w, x, y);
    var n := w * h;
    var s := TileSlot(w, x, y);
    var b := base % 0x100_0000;
    assert n * OpaqueSlot == w * h * OpaqueSlot;
    ScaledBelow(s, n, b);
    SlotAligned(b, s);
  }

  lemma ScaledBelow(s: nat, n: int, b: nat)
    requires s < n && b + n * 64 <= 0x1_0000_0000
    ensures b + s * 64 < 0x1_0000_0000
  {
  }

  lemma SlotAligned(b: nat, s: nat)
    ensures (b + s * 64) % 64 == b % 64
  {
  }

  /** `_ta_create_tile_descriptors`: the dummy record, then the tiles column by column. */
  method CreateTileDescriptors(td: array<Word>, opaqueBufferBase: Word, tileWidth: int, tileHeight: int)
    requires td.Length >= 6 + 6 * TileCount(tileWidth, tileHeight)
    modifies td
    ensures |TileTable(opaqueBufferBase, tileWidth, tileHeight)| == 6 + 6 * TileCount(tileWidth, tileHeight)
    ensures td[..6 + 6 * TileCount(tileWidth, tileHeight)] == TileTable(opaqueBufferBase, tileWidth, tileHeight)
    ensures td[6 + 6 * TileCount(tileWidth, tileHeight)..] == old(td[6 + 6 * TileCount(tileWidth, tileHeight)..])
  {
    TileTableLength(opaqueBufferBase, tileWidth, tileHeight);
    WriteDummy(td);
    if tileWidth > 0 && tileHeight > 0 {
      WriteColumns(td, opaqueBufferBase, tileWidth, tileHeight);
    } else {
      assert td[..6] == TileTable(opaqueBufferBase, tileWidth, tileHeight);
    }
  }

  /** The outer loop over x, after the dummy record. */
  method WriteColumns(td: array<Word>, base: Word, tileWidth: nat, tileHeight: nat)
    requires td.Length >= 6 + 6 * |GridTiles(tileHeight, tileWidth)| && td[..6] == DummyRecord()
    modifies td
    ensures td[..6 + 6 * |GridTiles(tileHeight, tileWidth)|] == DummyRecord() + Records(base, tileWidth, tileHeight, GridTiles(tileHeight, tileWidth))
    ensures forall k :: 6 + 6 * |GridTiles(tileHeight, tileWidth)| <= k < td.Length ==> td[k] == old(td[k])
  {
    WrittenIsTable(base, tileWidth, tileHeight, tileWidth);
    WrittenLength(base, tileWidth, tileHeight, tileWidth);
    var vr := 6;
    var x := 0;
    while x < tileWidth
      invariant 0 <= x <= tileWidth
      invariant vr == |Written(base, tileWidth, tileHeight, x)| <= |Written(base, tileWidth, tileHeight, tileWidth)|
      invariant td[..vr] == Written(base, tileWidth, tileHeight, x)
      invariant forall k :: vr <= k < td.Length ==> td[k] == old(td[k])
    {
      WrittenGrow(base, tileWidth, tileHeight, x, tileWidth);
      WriteColumn(td, vr, base, tileWidth, tileHeight, x);
      vr := vr + 6 * tileHeight;
      x := x + 1;
    }
  }

  /** The words in place once the outer loop has done x columns. */
  function Written(base: Word, w: int, h: nat, x: nat): seq<Word> {
    if x == 0 then DummyRecord() else Written(base, w, h, x - 1) + Records(base, w, h, ColumnTiles(x - 1, h))
  }

  lemma {:induction false} WrittenIsTable(base: Word, w: int, h: nat, x: nat)
    ensures Written(base, w, h, x) == DummyRecord() + Records(base, w, h, GridTiles(h, x))
  {
    if x > 0 {
      WrittenIsTable(base, w, h, x - 1);
      RecordsConcat(base, w, h, GridTiles(h, x - 1), ColumnTiles(x - 1, h));
      assert Written(base, w, h, x)
          == (DummyRecord() + Records(base, w, h, GridTiles(h, x - 1))) + Records(base, w, h, ColumnTiles(x - 1, h));
    }
  }

  lemma WrittenLength(base: Word, w: int, h: nat, x: nat)
    ensures |Written(base, w, h, x)| == 6 + 6 * |GridTiles(h, x)|
  {
    WrittenIsTable(base, w, h, x);
    RecordsLength(base, w, h, GridTiles(h, x));
  }

  /** Each column adds 6h words, and the prefix never outgrows the whole table. */
  lemma WrittenGrow(base: Word, w: int, h: nat, x: nat, m: nat)
    requires x < m
    ensures |Written(base, w, h, x + 1)| == |Written(base, w, h, x)| + 6 * h
    ensures |Written(base, w, h, x + 1)| <= |Written(base, w, h, m)|
  {
    WrittenLength(base, w, h, x);
    WrittenLength(base, w, h, x + 1);
    WrittenLength(base, w, h, m);
    GridTilesGrow(h, x, m);
  }

  /** The first six stores: the dummy record. */
  method WriteDummy(td: array<Word>)
    requires td.Length >= 6
    modifies td
    ensures td[..6] == DummyRecord()
    ensures forall k :: 6 <= k < td.Length ==> td[k] == old(td[k])
  {
    td[0] := DummyControl;
    td[1] := ListEmpty;
    td[2] := ListEmpty;
    td[3] := ListEmpty;
    td[4] := ListEmpty;
    td[5] := ListEmpty;
  }

  /** The inner loop over y for column x, writing from word vr0 on. */
  method WriteColumn(td: array<Word>, vr0: nat, base: Word, tileWidth: int, tileHeight: nat, x: nat)
    requires vr0 + 6 * tileHeight <= td.Length
    modifies td
    ensures td[..vr0 + 6 * tileHeight] == old(td[..vr0]) + Records(base, tileWidth, tileHeight, ColumnTiles(x, tileHeight))
    ensures forall k :: vr0 + 6 * tileHeight <= k < td.Length ==> td[k] == old(td[k])
  {
    ghost var prefix := td[..vr0];
    var vr := vr0;
    var y := 0;
    while y < tileHeight
      invariant 0 <= y <= tileHeight && vr == vr0 + 6 * y
      invariant td[..vr] == prefix + Records(base, tileWidth, tileHeight, ColumnTiles(x, y))
      invariant forall k :: vr <= k < td.Length ==> td[k] == old(td[k])
    {
      ghost var before := td[..vr];
      WriteTile(td, vr, base, tileWidth, tileHeight, Tile(x, y));
      TileStep(base, tileWidth, tileHeight, x, y, prefix, before, td[..vr + 6]);
      vr := vr + 6;
      y := y + 1;
    }
  }

  /** Appending the record of tile (x, y) extends the column written so far by one tile. */
  lemma TileStep(base: Word, w: int, h: int, x: nat, y: nat, prefix: seq<Word>, before: seq<Word>, after: seq<Word>)
    requires before == prefix + Records(base, w, h, ColumnTiles(x, y))
    requires after == before + TileRecord(base, w, h, Tile(x, y))
    ensures after == prefix + Records(base, w, h, ColumnTiles(x, y + 1))
  {
    RecordsAppend(base, w, h, ColumnTiles(x, y), Tile(x, y));
  }

  /** The six stores of the inner loop body: the record of one tile at word vr. */
  method WriteTile(td: array<Word>, vr: nat, base: Word, tileWidth: int, tileHeight: int, t: Tile)
    requires vr + 6 <= td.Length
    modifies td
    ensures td[..vr + 6] == old(td[..vr]) + TileRecord(base, tileWidth, tileHeight, t)
    ensures forall k :: vr + 6 <= k < td.Length ==> td[k] == old(td[k])
  {
    td[vr] := ControlWord(tileWidth, tileHeight, t.x, t.y);
    td[vr + 1] := OpaquePointer(base, tileWidth, t.x, t.y);
    td[vr + 2] := ListEmpty;
    td[vr + 3] := ListEmpty;
    td[vr + 4] := ListEmpty;
    td[vr + 5] := ListEmpty;
  }

  /** The TILE_CLIP register value `_ta_set_target` programs for a grid of w by h tiles. */
  function TileClip(w: bv32, h: bv32): bv32 {
    ((h - 1) << 16) | (w - 1)
  }

  /** For 1..65536 tiles each way, the low half holds w - 1 and the high half h - 1. */
  lemma TileClipFields(w: bv32, h: bv32)
    requires 1 <= w <= 0x1_0000 && 1 <= h <= 0x1_0000
    ensures TileClip(w, h) & 0xffff == w - 1
    ensures TileClip(w, h) >> 16 == h - 1
  {
  }

  /** `_ta_clear_background`: zeroes the 24-word background vertex block. */
  method ClearBackground(bg: array<bv32>)
    requires bg.Length >= 24
    modifies bg
    ensures forall k :: 0 <= k < 24 ==> bg[k] == 0
    ensures bg[24..] == old(bg[24..])
  {
    for i := 0 to 24
      invariant forall k :: 0 <= k < i ==> bg[k] == 0
      invariant bg[24..] == old(bg[24..])
    {
      bg[i] := 0;
    }
  }

  /** The palette `size` argument: TA_PALETTE_CLUT4, TA_PALETTE_CLUT8 or anything else. */
  datatype PaletteSize = Clut4 | Clut8 | OtherSize

  /** Entries (32-bit words) of palette RAM. */
  const PaletteEntries: int := 1024

  /** Entries in one bank of the given format. */
  function BankEntries(size: PaletteSize): int {
    match size
    case Clut4 => 16
    case Clut8 => 256
    case OtherSize => 0
  }

  /** Number of banks of the given format. */
  function BankCount(size: PaletteSize): int {
    match size
    case Clut4 => 64
    case Clut8 => 4
    case OtherSize => 0
  }

  /** `ta_palette_bank`: word offset of the bank into palette RAM, or None where the source returns null. */
  function PaletteBank(size: PaletteSize, bank: int): (r: Option<int>)
    ensures r.Some? <==> (size == Clut4 && 0 <= bank <= 63) || (size == Clut8 && 0 <= bank <= 3)
    ensures r.Some? && size == Clut4 ==> r.value == 16 * bank
    ensures r.Some? && size == Clut8 ==> r.value == 256 * bank
  {
    match size
    case Clut4 => if bank < 0 || bank > 63 then None else Some(16 * bank)
    case Clut8 => if bank < 0 || bank > 3 then None else Some(256 * bank)
    case OtherSize => None
  }

  /**
   * The banks of one format tile palette RAM: each valid bank lies inside
   * it and two different banks do not overlap.
   */
  lemma PaletteBanksTile(size: PaletteSize, b1: int, b2: int)
    requires PaletteBank(size, b1).Some? && PaletteBank(size, b2).Some? && b1 != b2
    ensures PaletteBank(size, b1).value + BankEntries(size) <= PaletteBank(size, b2).value
         || PaletteBank(size, b2).value + BankEntries(size) <= PaletteBank(size, b1).value
    ensures 0 <= PaletteBank(size, b1).value && PaletteBank(size, b1).value + BankEntries(size) <= PaletteEntries
    ensures BankCount(size) * BankEntries(size) == PaletteEntries
  {
  }

  /**
   * The banks `ta_palette_bank` accepts are exactly 0 .. BankCount - 1, and
   * every palette entry lies in the bank its index selects, so the banks of
   * one format together cover the whole palette RAM.
   */
  lemma PaletteBanksCover(size: PaletteSize, bank: int, e: int)
    ensures PaletteBank(size, bank).Some? <==> size != OtherSize && 0 <= bank < BankCount(size)
    ensures size != OtherSize && 0 <= e < PaletteEntries ==>
      var b := e / BankEntries(size);
      PaletteBank(size, b).Some? && PaletteBank(size, b).value <= e < PaletteBank(size, b).value + BankEntries(size)
  {
  }
}
