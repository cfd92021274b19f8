# Naomi homebrew core in Dafny

This project models three pieces of the Naomi homebrew tool chain and
proves properties about them.

- **The Tile Accelerator driver** (`homebrew/libnaomi/ta.c`). It builds the
  tile descriptor table. It programs TILE_CLIP and clears the background
  plane. It hands out palette banks. It keeps the `waiting_lists` flags
  that `ta_commit_list`, `ta_commit_begin` and `ta_commit_end` use to know
  which display lists to wait for. It also fills the twiddle table and
  loads textures in twiddled (Morton) order.
  - `twiddle.dfy`: the twiddle table entry and the texel address.
  - `ta_descriptors.dfy`: the descriptor table, TILE_CLIP, background and
    palette banks.
  - `ta_lists.dfy`: `waiting_lists` as a set of lists, and the
    notifications and waits.
  - `ta_texture.dfy`: the twiddle table array and the texture-load loops.
  - `ta_driver.dfy`: the driver as a class with the `waiting_lists` state,
    the twiddle table and an event log.
- **The Naomi EEPROM image** (`naomi/eeprom.py`). It handles the 128-byte
  image with two mirrored 16-byte system sections and two game sections.
  It covers the CRC, validation, CRC repair on read, the `length` property,
  byte access through the image and its `ArrayBridge` views, and the
  default image (`eeprom.dfy`).
- **The sprite converter** (`homebrew/tools/sprite.py`). It packs RGBA
  pixels into depth-16 (ARGB1555) or depth-32 (ARGB8888) little-endian
  words and joins them (`sprite.dfy`).

Hardware, the scheduler and the memory copy to the TA input are events
appended to a log (`TaLists.Event`). Pointers become arrays or offsets.
The TA_CMD_* command bits are defined in a header that is not part of
this model, so they are a `CommandBits` value given to the driver's
constructor. `waiting_lists` only ever holds a combination of the three
flags, so it is modelled as a `set<ListType>`. `Driver.Flags()` gives the
C value (`TaLists.Mask`), and the Mask lemmas tie the bit tests and
or-assignments to set membership and union.

Behaviours of the code worth knowing, all kept exactly as written:

- `twiddletab[2]` is 4, because bit 1 of the index moves to bit 2
  (ta.c:326-337, `Twiddle.TwiddleFirstEntries`).
- `ta_commit_end` tests `waiting_lists && FLAG`, a logical and. So once any
  flag is set, it waits for all three lists, not just the registered ones
  (ta.c:218-248, `TaLists.OpaqueOnlyPhaseWaitsForAll`).
- `__fix_crc` returns early when the game size bytes disagree. That return
  also throws away the system CRCs it has just recomputed
  (`NaomiEeprom.FixSkipsOnMismatch`).
- `ta_texture_load` checks `size` but always loads a 256×256 texture.

The opaque object buffer per tile is TA_OPAQUE_OBJECT_BUFFER_SIZE, 64
bytes (ta.c:13, used at ta.c:104), the constant `TaDescriptors.OpaqueSlot`.

## Model

| member | source | states |
|---|---|---|
| Twiddle.TwiddleMovesBits | homebrew/libnaomi/ta.c:326-337 | `TwiddleEntry` (the table entry expression): bit i of a table index below 1024 lands on bit 2i of its entry; odd bits stay clear; every entry is below 2^20 |
| Twiddle.TwiddleRoundTrip | homebrew/libnaomi/ta.c:326-337 | gathering the even bits of an entry gives back the index (inverse of the spreading) |
| Twiddle.TwiddleInjective | homebrew/libnaomi/ta.c:324-338 | distinct indices below 1024 have distinct entries |
| Twiddle.TwiddleFirstEntries | homebrew/libnaomi/ta.c:326-337 | the first entries are 0, 1, 4, 5 |
| Twiddle.TexIndexRoundTrip | homebrew/libnaomi/ta.c:486 | `TexIndex` (the store address: entry i or-ed with entry j shifted right once): for a row below 256 and an even column below 256, the store address is below 0x8000 and row and column can be read back from it |
| Twiddle.TexIndexOnto | homebrew/libnaomi/ta.c:486 | every address below 0x8000 is the address of the pair read back from it |
| Twiddle.DestInjective | homebrew/libnaomi/ta.c:482-488 | different (row, column) pairs store to different halfwords, so no store overwrites another |
| Twiddle.DestOnto | homebrew/libnaomi/ta.c:482-488 | every halfword below 0x8000 is stored by some pair |
| Twiddle.BitsValue | homebrew/libnaomi/ta.c:324 | the 32-bit pattern of a C `int` counter up to 1024 has the counter's value |
| TaDescriptors.DummyRecord | homebrew/libnaomi/ta.c:85-91 | the dummy tile is six words: control word 0x10000000, then five empty-list pointers 0x80000000 |
| TaDescriptors.TileTableLength | homebrew/libnaomi/ta.c:85-118 | `TileTable` (the dummy followed by `Records` of every tile in loop order) has six words for the dummy plus six per tile, for w·h tiles, and starts with the dummy record |
| TaDescriptors.TileTableRecordAt | homebrew/libnaomi/ta.c:94-117 | tile (x, y) is record 1 + x·h + y: columns outer, rows inner |
| TaDescriptors.TableRecordAt | homebrew/libnaomi/ta.c:94-117 | record 1 + k is the record of the k-th tile in loop order |
| TaDescriptors.ControlBitsFields | homebrew/libnaomi/ta.c:98-101 | `ControlBits` (the control word: end-of-buffer, auto-sort, y shifted by 8 and x shifted by 2, or-ed together) holds x in bits 2-7 and y in bits 8-13; auto-sort is always set; end-of-buffer is set iff the tile is last; every other bit is zero |
| TaDescriptors.EndOfBufferOnlyOnLastTile | homebrew/libnaomi/ta.c:98-101 | end-of-buffer is set iff (x, y) is the last tile, which is the tile written last (record index w·h) |
| TaDescriptors.TileSlotInjective | homebrew/libnaomi/ta.c:104 | different tiles get different opaque buffer slots x + y·w |
| TaDescriptors.TileSlotBound | homebrew/libnaomi/ta.c:81-104 | every slot is below w·h, so 64·w·h bytes of buffer suffice |
| TaDescriptors.OpaquePointersDistinct | homebrew/libnaomi/ta.c:83-104 | `OpaquePointer` (the 24-bit masked base plus 64 per slot, wrapping at 2^32): different tiles get different opaque pointers, all congruent modulo 64 |
| TaDescriptors.OpaquePointerNoWrap | homebrew/libnaomi/ta.c:83-104 | a tile's opaque pointer is the masked base plus 64 times its slot |
| TaDescriptors.CreateTileDescriptors | homebrew/libnaomi/ta.c:79-118 | the written prefix of the array is the whole table; the rest of the array is unchanged |
| TaDescriptors.WriteDummy | homebrew/libnaomi/ta.c:85-91 | the first six words become the dummy record; nothing else changes |
| TaDescriptors.WriteColumns | homebrew/libnaomi/ta.c:94-118 | after the outer loop the array holds the dummy followed by the records of every tile in loop order; words beyond are unchanged |
| TaDescriptors.WriteColumn | homebrew/libnaomi/ta.c:96-117 | the inner loop appends the records of column x, rows 0..h-1 |
| TaDescriptors.WriteTile | homebrew/libnaomi/ta.c:98-116 | one iteration writes the tile's six-word record at vr; nothing beyond changes |
| TaDescriptors.TileClipFields | homebrew/libnaomi/ta.c:141 | `TileClip` (the TILE_CLIP value) holds width - 1 in the low half and height - 1 in the high half |
| TaDescriptors.ClearBackground | homebrew/libnaomi/ta.c:160-172 | the first 24 words become zero; the words after them are unchanged |
| TaDescriptors.PaletteBank | homebrew/libnaomi/ta.c:448-466 | a bank exists iff CLUT4 with bank 0..63 or CLUT8 with bank 0..3 (NULL otherwise); it starts at entry 16·bank or 256·bank |
| TaDescriptors.PaletteBanksTile | homebrew/libnaomi/ta.c:448-466 | valid banks of one size do not overlap and lie inside the 1024-entry palette |
| TaDescriptors.PaletteBanksCover | homebrew/libnaomi/ta.c:448-466 | the banks `ta_palette_bank` accepts are exactly 0 .. BankCount − 1 (64 for CLUT4, 4 for CLUT8, none otherwise), and every entry 0..1023 lies in the accepted bank its index selects, so together the banks cover the palette |
| TaLists.MaskHas | homebrew/libnaomi/ta.c:30-34 | testing a list's flag in `waiting_lists` is membership of that list |
| TaLists.MaskAdd | homebrew/libnaomi/ta.c:50-54 | or-ing a list's flag in adds that list |
| TaLists.MaskUnion | homebrew/libnaomi/ta.c:46-72 | or-ing two flag values is the union of their lists |
| TaLists.MaskZero | homebrew/libnaomi/ta.c:218 | `waiting_lists` is zero iff no list is pending |
| TaLists.MaskLowBits | homebrew/libnaomi/ta.c:30-34 | no bit beyond the three flags is ever set |
| TaLists.RegisteredHas | homebrew/libnaomi/ta.c:42-72 | `Registered` (the lists a command adds to `waiting_lists`): a command registers list l iff interrupts are enabled, the polygon bit is set and l's type bit is set |
| TaLists.CommitFlagsIff | homebrew/libnaomi/ta.c:42-72 | after a command, a list's flag is set iff it was set before or the command registers that list |
| TaLists.NotifyIffRaised | homebrew/libnaomi/ta.c:50-70 | `Notifications` (the `thread_notify_wait_ta_load_*` calls of a command): a list is notified iff the command moves it from not pending to pending; at most three notifications |
| TaLists.CommitWithoutPolygon | homebrew/libnaomi/ta.c:42-46 | with interrupts disabled, or without the polygon bit, nothing is registered or notified |
| TaLists.PolygonRegisters | homebrew/libnaomi/ta.c:46-72 | for a polygon command with interrupts enabled, a list is registered iff its type bit is set |
| TaLists.PolygonCommit | homebrew/libnaomi/ta.c:46-72 | the three blocks register and notify list by list, in the order opaque, transparent, punch-through |
| TaLists.EndWaitsIffAnyFlag | homebrew/libnaomi/ta.c:209-250 | `EndEvents` (what `ta_commit_end` does for a flag value): the end-of-list store comes first; each list is waited for iff `waiting_lists` is non-zero, whichever flag is set |
| TaLists.OpaqueOnlyPhaseWaitsForAll | homebrew/libnaomi/ta.c:218-248 | a phase that only sent opaque polygons registers only the opaque list, yet waits for all three at its end |
| TaTexture.InitTwiddleTab | homebrew/libnaomi/ta.c:322-339 | after the loop, every entry k of the 1024-entry table is the spread of k |
| TaTexture.TwiddleTableFacts | homebrew/libnaomi/ta.c:324-338 | the filled table starts 0, 1, 4, 5 and has no repeated entries |
| TaTexture.SrcWord | homebrew/libnaomi/ta.c:486 | the source index `(j + i*256) >> 1` is i·128 + j/2, below 0x8000 |
| TaTexture.SrcWordBijective | homebrew/libnaomi/ta.c:482-488 | distinct texels read distinct source halfwords, and every source halfword is read |
| TaTexture.TableIndex | homebrew/libnaomi/ta.c:486 | the address from the table entries equals the twiddled address of the loop counters, below 0x8000 |
| TaTexture.TexelIsDest | homebrew/libnaomi/ta.c:486 | the address read from the filled table is the address of the twiddle function |
| TaTexture.TexelInjective | homebrew/libnaomi/ta.c:482-488 | distinct texels are stored at distinct addresses |
| TaTexture.TexelsCover | homebrew/libnaomi/ta.c:482-488 | every halfword below 0x8000 is the address of some texel |
| TileAccelerator.Driver.constructor | homebrew/libnaomi/ta.c:34 | the driver starts with no list pending (`waiting_lists` 0), an empty event log and a filled twiddle table |
| TileAccelerator.Driver.CommitList | homebrew/libnaomi/ta.c:38-76 | the pending lists gain exactly the lists the command registers; the new flag value is the old one or-ed with theirs; the log gains the notifications, then the store of the `len` bytes |
| TileAccelerator.Driver.Track | homebrew/libnaomi/ta.c:42-73 | the interrupt and polygon tests register and notify exactly as `Registered` and `Notifications` say |
| TileAccelerator.Driver.Register | homebrew/libnaomi/ta.c:48-55 | one type block adds the list and notifies it only when it was not pending |
| TileAccelerator.Driver.RegisterAll | homebrew/libnaomi/ta.c:46-72 | the opaque, transparent and punch-through blocks in that order: the set gains exactly the tagged lists, and each tagged list that was not pending is notified once, in block order |
| TileAccelerator.Driver.CommitBegin | homebrew/libnaomi/ta.c:193-205 | TILE_CLIP is programmed for the screen in 32-pixel tiles, and `waiting_lists` becomes 0 |
| TileAccelerator.Driver.CommitEnd | homebrew/libnaomi/ta.c:209-250 | the pending lists are kept; the log gains the end-of-list store and then the waits that `EndEvents` gives for the flag value |
| TileAccelerator.Driver.WaitFor | homebrew/libnaomi/ta.c:218-248 | one wait: a spin wait with interrupts disabled, a thread wait otherwise |
| TileAccelerator.Driver.TextureLoad | homebrew/libnaomi/ta.c:468-491 | it returns 0 iff the size is a power of two from 8 to 1024 and both pointers are non-NULL, otherwise -1; on success every texel of the 256×256 square is stored at its twiddled address; on failure nothing changes |
| TileAccelerator.Driver.LoadRow | homebrew/libnaomi/ta.c:484-487 | the inner loop stores row i's texels and keeps the earlier rows |
| NaomiEeprom.Cap32 | naomi/eeprom.py:105-107 | the capped value is a 32-bit unsigned value |
| NaomiEeprom.CrcInner | naomi/eeprom.py:109-125 | the masking, the add and the eight shift/feedback rounds give `Inner`, a 32-bit value |
| NaomiEeprom.ComputeCrc | naomi/eeprom.py:127-135 | the loop over data plus a zero byte computes `Crc(data)` |
| NaomiEeprom.CrcIsHighHalf | naomi/eeprom.py:127-135 | `Crc` (the `crc` method as a fold of `Inner`): the two CRC bytes are the little-endian high half of the running value over data followed by a zero byte |
| NaomiEeprom.Le16RoundTrip | naomi/eeprom.py:135 | packing a 16-bit value little-endian and unpacking it are inverse |
| NaomiEeprom.ValidateMeans | naomi/eeprom.py:137-176 | `Validate` (the `validate` if-chain) holds iff the image is 128 bytes, both size pairs agree and both system CRCs match, and also both game CRCs when not checking only the system |
| NaomiEeprom.FullImpliesSystem | naomi/eeprom.py:137-176 | a fully valid image is valid for the system check |
| NaomiEeprom.SystemFixedLength | naomi/eeprom.py:182-185 | recomputing the system CRCs keeps the length of any image of at least 36 bytes |
| NaomiEeprom.SystemFixedAt | naomi/eeprom.py:182-185 | the system repair rewrites bytes 0-1 and 18-19 with the CRCs of the two copies and keeps every other byte |
| NaomiEeprom.GameFixedKeeps | naomi/eeprom.py:197-203 | each game repair rewrites only its two CRC bytes, with the CRC of its section |
| NaomiEeprom.FixSkipsOnMismatch | naomi/eeprom.py:188-195 | when either size pair disagrees the repair stores nothing, not even the system CRCs |
| NaomiEeprom.FixStoresIff | naomi/eeprom.py:178-207 | `FixCrc` (`__fix_crc`: the new image to store, nothing, or an error): the repair stores a new image iff the image is 128 bytes and both size pairs agree; what it stores is 128 bytes |
| NaomiEeprom.GamesFixedIntact | naomi/eeprom.py:197-203 | after the game repair the system stays intact, and the CRC of each section with a real size (not 0, not 0xFF) matches |
| NaomiEeprom.FixRepairsSystem | naomi/eeprom.py:178-207 | a stored repair always passes the system check |
| NaomiEeprom.FixRepairsAll | naomi/eeprom.py:178-207 | with both sizes real, a stored repair passes the full check |
| NaomiEeprom.FixOnlyTouchesCrcs | naomi/eeprom.py:178-207 | a stored repair keeps every non-CRC byte; it keeps game CRC 1 unless size 1 is real, and game CRC 2 unless both sizes are real |
| NaomiEeprom.SystemFixedNoop | naomi/eeprom.py:182-185 | an image whose system CRCs match is left unchanged by the system repair |
| NaomiEeprom.Game1FixedNoop | naomi/eeprom.py:197-199 | a matching first game CRC is left unchanged |
| NaomiEeprom.Game2FixedNoop | naomi/eeprom.py:201-203 | a matching second game CRC is left unchanged |
| NaomiEeprom.FixIdempotent | naomi/eeprom.py:178-212 | repairing a repaired image gives the same result again |
| NaomiEeprom.ImageGetMeans | naomi/eeprom.py:250-256 | `ImageGet`, the integer-key half of `__getitem__` that `NaomiEEPRom.GetAt` reads through: reading an index succeeds iff it is 0..127, and gives that byte |
| NaomiEeprom.ImageRangeMeans | naomi/eeprom.py:258-276 | `ImageRange`, the slice half of `__getitem__` that `NaomiEEPRom.GetRange` reads through: a slice fails iff a bound is negative or the stop is past 128; an in-range slice is exactly those bytes; the full slice is the whole image |
| NaomiEeprom.ImageSetMeans | naomi/eeprom.py:281-295 | `ImageSet` (`__setitem__` as new image and result): writing a byte fails iff the key is a slice, a CRC position or an index outside 0..127; a failed write changes nothing; a good write changes that byte alone |
| NaomiEeprom.ImageSetLength | naomi/eeprom.py:287-292 | a raw value replaces one byte with all its bytes, so the write succeeds iff the value is one byte long |
| NaomiEeprom.BridgeGetMeans | naomi/eeprom.py:29-36 | `BridgeGet`, the integer-key half of `ArrayBridge.__getitem__` that `ArrayBridge.GetAt` reads through: reading a section index succeeds iff it is below the section length, and reads the first copy |
| NaomiEeprom.BridgeRangeMeans | naomi/eeprom.py:38-57 | `BridgeRange`, the slice half of `ArrayBridge.__getitem__` that `ArrayBridge.GetRange` reads through: a section slice fails iff a bound is negative or the stop is past the length; the full slice is the first copy |
| NaomiEeprom.BridgeSetMeans | naomi/eeprom.py:62-76 | `BridgeSet` (`ArrayBridge.__setitem__` as new image and result): an in-range write sets the byte in both copies and nothing else; an out-of-range write fails and changes nothing |
| NaomiEeprom.BridgeReadBack | naomi/eeprom.py:29-73 | a byte written through a section reads back through it |
| NaomiEeprom.SystemBridgeKeepsMirror | naomi/eeprom.py:62-73 | writes through the system view keep its two copies equal |
| NaomiEeprom.SystemBridgeKeepsGame | naomi/eeprom.py:219-221 | writes through the system view leave bytes 36..127 unchanged |
| NaomiEeprom.LengthOf | naomi/eeprom.py:223-226 | the `length` getter, read by `NaomiEEPRom.Length`, gives byte 38, and raises the struct error iff the image is shorter than 39 bytes |
| NaomiEeprom.NaomiEEPRom.Serial | naomi/eeprom.py:214-217 | the serial is bytes 3..7 of the image (at most four bytes) |
| NaomiEeprom.SetLengthAlwaysRaises | naomi/eeprom.py:228-235 | the length setter as written always raises: invalid length outside 0..42, a struct error inside |
| NaomiEeprom.SetLengthIntendedMeans | naomi/eeprom.py:228-235 | the intended setter writes n to bytes 38, 39, 42 and 43, reads back as the new length, and keeps the system check passing |
| NaomiEeprom.SystemAreaLayout | naomi/eeprom.py:96-98 | the default system area is 36 bytes: two copies of the system block with the serial at 3..7, each preceded by its CRC |
| NaomiEeprom.DefaultImageTooLong | naomi/eeprom.py:86-98 | `DefaultImage` (the bytes `default` builds, or its first exception): with no game defaults the image as written is 404 bytes, so it fails validation |
| NaomiEeprom.GameSettingsAsWrittenLength | naomi/eeprom.py:89-94 | `GameSettingsAsWritten` (the settings once the header packs, padded as lines 92-94 do with the 4-byte literal) is 312 - 6n bytes for n < 38 bytes of defaults and 8 + 2n otherwise, so it fills the 92 bytes after the system area only for n = 42 |
| NaomiEeprom.DefaultIntendedBare | naomi/eeprom.py:82-98 | the intended default without game defaults passes the system check and carries the serial |
| NaomiEeprom.SettingsLayout | naomi/eeprom.py:88-94 | the intended settings are 92 bytes: two headers (CRC, size, size), two copies of the defaults, then padding |
| NaomiEeprom.DefaultIntendedGame | naomi/eeprom.py:82-98 | with game defaults of at most 42 bytes the intended default passes the full check |
| NaomiEeprom.ArrayBridge.constructor | naomi/eeprom.py:10-15 | the view records its image, name, length and both offsets |
| NaomiEeprom.ArrayBridge.SetItem | naomi/eeprom.py:62-76 | the image and the result are those of `BridgeSet` on the old image |
| NaomiEeprom.ArrayBridge.Data | naomi/eeprom.py:17-19 | the `data` property is the first copy, `length` bytes from `offset1` (fewer only when the image is shorter), and equals what the full slice `[:]` reads |
| NaomiEeprom.NaomiEEPRom.constructor | naomi/eeprom.py:100-103 | an image that passes the system check is stored unchanged |
| NaomiEeprom.NaomiEEPRom.Create | naomi/eeprom.py:100-103 | construction succeeds iff the data passes the system check, and otherwise fails with the invalid-CRC error |
| NaomiEeprom.NaomiEEPRom.Default | naomi/eeprom.py:82-98 | as written it always fails: invalid serial for a serial that is not 4 bytes, a struct error with game defaults, an invalid CRC without them (the 404-byte image) |
| NaomiEeprom.NaomiEEPRom.Data | naomi/eeprom.py:209-212 | reading `data` stores the repair when `FixCrc` gives one, keeps the image otherwise, and returns the stored image or the repair's error |
| NaomiEeprom.NaomiEEPRom.SetLength | naomi/eeprom.py:228-235 | the setter's result is `SetLengthResult` (always an error) |
| NaomiEeprom.NaomiEEPRom.System | naomi/eeprom.py:219-221 | the system view is a fresh bridge of 16 bytes at offsets 2 and 20 |
| NaomiEeprom.NaomiEEPRom.Game | naomi/eeprom.py:237-240 | the game view has the stored length at offsets 44 and 44 + length, or the length getter's error |
| NaomiEeprom.NaomiEEPRom.SetItem | naomi/eeprom.py:281-295 | the image and the result are those of `ImageSet` on the old image |
| NaomiEeprom.FixSystemCrcs | naomi/eeprom.py:182-185 | computes the system repair `SystemFixed` |
| NaomiEeprom.FixGameCrcs | naomi/eeprom.py:197-203 | computes the game repair `GamesFixed` |
| NaomiEeprom.FixGame1Crc | naomi/eeprom.py:197-199 | computes `Game1Fixed` |
| NaomiEeprom.FixGame2Crc | naomi/eeprom.py:201-203 | computes `Game2Fixed` |
| Sprite.Pack16IsArgb1555 | homebrew/tools/sprite.py:58-60 | `Pack16`, the depth-16 expression is the ARGB1555 layout and fits in 16 bits |
| Sprite.Pack16Fields | homebrew/tools/sprite.py:60 | each 5-bit field holds the top five bits of its channel; bit 15 is set iff alpha ≥ 128 |
| Sprite.Pack16Onto | homebrew/tools/sprite.py:60 | every 16-bit word is the packing of some pixel |
| Sprite.Pack16RoundTrip | homebrew/tools/sprite.py:60 | unpacking a depth-16 word gives back the top five bits of each colour and the top bit of alpha |
| Sprite.Pack32RoundTrip | homebrew/tools/sprite.py:63 | `Pack32` and `Unpack32`: depth-32 packing and unpacking are inverse in both directions |
| Sprite.Le16RoundTrip | homebrew/tools/sprite.py:60 | the two bytes `struct.pack("<H")` writes read back as the word |
| Sprite.Le32RoundTrip | homebrew/tools/sprite.py:63 | the four bytes `struct.pack("<I")` writes read back as the word |
| Sprite.PixelBytes | homebrew/tools/sprite.py:52-63 | a pixel contributes 1, 2 or 4 bytes at depth 8, 16 or 32 |
| Sprite.JoinUniform | homebrew/tools/sprite.py:68 | joining pieces of n bytes gives n bytes per piece, piece k at bytes k·n to k·n + n |
| Sprite.EncodedLayout | homebrew/tools/sprite.py:52-68 | `Encoded` (the joined output or the depth error) has n bytes per pixel, and pixel k's bytes sit at k·n |
| Sprite.Depth32Decodes | homebrew/tools/sprite.py:61-68 | at depth 32 every pixel reads back exactly from its four output bytes |
| Sprite.Depth16Decodes | homebrew/tools/sprite.py:58-68 | at depth 16 every pixel's packed word reads back from its two output bytes |
| Sprite.Convert | homebrew/tools/sprite.py:50-68 | the loop's output is `Encoded`; it fails iff the depth is not 8, 16 or 32, with that depth in the error; otherwise it has n bytes per pixel |

## Left out

- Memory-mapped registers other than TILE_CLIP are not modelled: the reset, the buffer bases, the block sizes and the confirm in `_ta_set_target`, the register writes of `_ta_init` (its twiddle table is the `Driver` constructor), and all of `_ta_begin_render` and `ta_render`. They are hardware I/O.
- `hw_memcpy` to the TA input is the `StoreQueue` event. The thread notifications, the thread waits and the interrupt spin loops are `Notify`, `ThreadWait` and `SpinWait` events. The scheduler and interrupt controller are not modelled.
- Whether interrupts are disabled (`_irq_is_disabled(_irq_get_sr())`) is a parameter of `CommitList` and `CommitEnd`.
- The TA_CMD_* values are defined in a header that is not part of this model. The command bits are a constructor parameter.
- `ta_palette_bank` returns an entry offset into the palette, or None for NULL. It does not return a pointer.
- `ta_texture_load` writes through the uncached mirror of `offset`. The model writes into the array that stands for that memory.
- The floating-point `zclip` of `_ta_begin_render` is not modelled.
- The depth-8 grey weighting of `sprite.py` is floating point. It is the `gray` parameter of `Sprite.Convert`.
- Argument parsing, image decoding by PIL, file output and the C-source output of `sprite.py` are not modelled.
- Python slice steps (`key.step`) are not modelled. Every slice uses step 1.
- The `NotImplementedError` branches for keys that are neither `int` nor `slice` are not modelled, because `Key` has only those two forms.
- The exception classes of `eeprom.py` are collapsed into one `Error` datatype.
- The netboot, outlet and test code of the repository is not part of this model.
- TaDescriptors.OpaquePointersDistinct: proved only when the masked base plus 64·w·h does not wrap past 2^32. The C sum wraps silently, and `OpaquePointer` models that wrap.
- TaDescriptors.OpaquePointerNoWrap: stated only under the same no-wrap bound.
- TaDescriptors.EndOfBufferOnlyOnLastTile: stated for tile grids of at most 1024×1024. With larger grids the C `int` shifts would overlap.
- TaDescriptors.ControlBitsFields: states the field layout for x and y below 64, the width of the hardware fields.
- TileAccelerator.Driver.TextureLoad: requires that, when the arguments pass the checks, both buffers hold at least 0x8000 halfwords and are different arrays. The C code writes raw memory with no such check.
- TileAccelerator.Driver.CommitList: requires `len` to be 32 or 64 and `src` to hold that many bytes, as the comment at `ta.c:36-37` demands of callers.
- NaomiEeprom.NaomiEEPRom.constructor: requires a valid image. The raising path of `__init__` is `NaomiEEPRom.Create`.
- NaomiEeprom.FixRepairsAll: covers only images whose two game sizes are real (neither 0 nor 0xFF). Otherwise the game CRCs are left as they were (`FixOnlyTouchesCrcs`).

## Findings

| source | as written | input that shows it | evidently intended | confidence | as-written member | corrected member |
|---|---|---|---|---|---|---|
| naomi/eeprom.py:87 | `b'\0xFF'` is the four bytes 00 78 46 46, so 92 repeats give 368 bytes and a 404-byte image, which `__init__` rejects | `default(b"ABCD")` | 92 bytes of 0xFF, giving a valid 128-byte image | not executed | NaomiEeprom.DefaultImageTooLong | NaomiEeprom.DefaultIntendedBare |
| naomi/eeprom.py:89 | `struct.pack("<BB", (n, n))` passes one tuple for two fields, so it raises `struct.error` | `default(b"ABCD", b"\x01")` | `struct.pack("<BB", n, n)`, a header of CRC, size, size | not executed | NaomiEeprom.NaomiEEPRom.Default | NaomiEeprom.DefaultIntendedGame |
| naomi/eeprom.py:92-94 | the padding length is counted up to 84 bytes (it subtracts the two headers a second time) and is then made of copies of the 4-byte literal `b'\0xFF'`; the settings are 312 - 6n bytes for n < 38 bytes of defaults and 8 + 2n otherwise, 92 only for n = 42 | `default(b"ABCD", b"\x01")` once line 89 packs: 306 bytes of settings, a 342-byte image | pad with 0xFF bytes up to 92, the space from byte 36 to 128 | not executed | NaomiEeprom.GameSettingsAsWrittenLength | NaomiEeprom.SettingsLayout |
| naomi/eeprom.py:232 | the same one-tuple `struct.pack`, so setting `length` always raises | `eeprom.length = 5` | write n to bytes 38, 39, 42 and 43 | not executed | NaomiEeprom.SetLengthAlwaysRaises | NaomiEeprom.SetLengthIntendedMeans |
