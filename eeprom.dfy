/**
 * The 128-byte NAOMI EEPROM image (naomi/eeprom.py): two mirrored 16-byte
 * system sections and two game sections, each guarded by a 16-bit CRC,
 * with bounds-checked byte access and mirrored writes through a bridge.
 *
 * Image layout:
 *   0..2    CRC of the system section at 2..18
 *   2..18   system section (serial at 3..7)
 *   18..20  CRC of the system copy at 20..36
 *   20..36  system section copy
 *   36..38  CRC of game section 1;  38, 39  its size, twice
 *   40..42  CRC of game section 2;  42, 43  its size, twice
 *   44..    game section 1, then game section 2
 *
 * Python's unbounded integers are `int`; `& 0xFFFFFFFF` is written as
 * `% 2^32`, which agrees with it for every integer.
 */
module NaomiEeprom {
  import opened Wrappers

  type Byte = b: int | 0 <= b < 256
  type Bytes = seq<Byte>

  /** The exceptions the source raises. */
  datatype Error =
    | InvalidSerial     // NaomiEEPRomException: serial is not 4 bytes
    | InvalidCrc        // NaomiEEPRomException: system CRCs do not validate
    | StructError       // struct.error raised by struct.pack
    | CrcByteWrite      // NaomiEEPRomException: a CRC byte was written directly
    | OutsideImage      // NaomiEEPRomException: key outside the 128-byte image
    | OutsideSection    // NaomiEEPRomException: key outside a bridge's section
    | NegativeIndex     // Exception: negative slice bound
    | MultiByteWrite    // NaomiEEPRomException: slice key on a write
    | InvalidLength     // NaomiEEPRomException: game section length outside 0..42
    | LogicError        // Exception: image no longer 128 bytes after a write
    | ByteRange         // ValueError: bytes([v]) for v outside 0..255
    | IndexOutOfRange   // IndexError: reading past the end of the image

  // ---------------------------------------------------------------------
  // Python byte-string slicing with non-negative bounds
  // ---------------------------------------------------------------------

  /** `s[:k]` */
  function Take(s: Bytes, k: nat): (r: Bytes)
    ensures |r| == if k <= |s| then k else |s|
  {
    if k <= |s| then s[..k] else s
  }

  /** `s[k:]` */
  function Drop(s: Bytes, k: nat): (r: Bytes)
    ensures |r| == if k <= |s| then |s| - k else 0
  {
    if k <= |s| then s[k..] else []
  }

  /** `s[a:b]`: both bounds clamped to the length, empty when they cross. */
  function Slice(s: Bytes, a: nat, b: nat): Bytes {
    Drop(Take(s, b), a)
  }

  lemma SliceInRange(s: Bytes, a: nat, b: nat)
    requires a <= b <= |s|
    ensures Slice(s, a, b) == s[a..b]
  {
  }

  /**
   * `s[:k] + v + s[k + 1:]`: the way the source replaces one position.
   * Past the end both slices clamp, so v is appended.
   */
  function Splice(s: Bytes, k: nat, v: Bytes): Bytes {
    if k < |s| then s[..k] + v + s[k + 1..] else s + v
  }

  /** Inside the image, splicing in one byte is an update in place; past the end it appends. */
  lemma SpliceOne(s: Bytes, k: nat, v: Byte)
    ensures k < |s| ==> Splice(s, k, [v]) == s[k := v]
    ensures k >= |s| ==> Splice(s, k, [v]) == s + [v]
  {
  }

  // ---------------------------------------------------------------------
  // CRC
  // ---------------------------------------------------------------------

  const Modulus: int := 0x1_0000_0000
  const CrcSeed: int := 0xDEBD_EB00
  const CrcFeedback: int := 0x1021_0000

  /** `__cap_32`: `val & 0xFFFFFFFF`. */
  function Cap32(x: int): (r: int)
    ensures 0 <= r < Modulus
  {
    x % Modulus
  }

  /** One of the eight shift rounds of `__crc_inner`. */
  function Round(r: int): (s: int)
    ensures 0 <= s < Modulus
  {
    if r < 0x8000_0000 then Cap32(r * 2) else Cap32(Cap32(r * 2) + CrcFeedback)
  }

  function Rounds(r: int, n: nat): int {
    if n == 0 then r else Round(Rounds(r, n - 1))
  }

  /** What `__crc_inner` returns. The masks are `running & 0xFFFFFF00` and `next & 0xFF`. */
  function Inner(running: int, next: int): int {
    Rounds(Cap32(running % Modulus - running % 0x100 + next % 0x100), 8)
  }

  lemma {:induction false} RoundsBound(r: int, n: nat)
    requires n > 0
    ensures 0 <= Rounds(r, n) < Modulus
  {
  }

  /** The running value after the bytes of `input`, starting from the seed. */
  function CrcRunning(input: Bytes): int {
    if |input| == 0 then CrcSeed else Inner(CrcRunning(input[..|input| - 1]), input[|input| - 1])
  }

  /** `struct.pack("<H", v)` */
  function Le16(v: int): (r: Bytes)
    requires 0 <= v < 0x10000
    ensures |r| == 2
  {
    [v % 0x100, v / 0x100]
  }

  /** `struct.unpack("<H", b)` */
  function Le16Value(b: Bytes): int
    requires |b| == 2
  {
    b[0] as int + 0x100 * b[1] as int
  }

  lemma Le16RoundTrip(v: int, b: Bytes)
    requires 0 <= v < 0x10000 && |b| == 2
    ensures Le16Value(Le16(v)) == v
    ensures Le16(Le16Value(b)) == b
  {
  }

  /** Bits 16..31 of the running value (`(running >> 16) & 0xFFFF`). */
  function HighHalf(running: int): (h: int)
    ensures 0 <= h < 0x10000
  {
    (running / 0x10000) % 0x10000
  }

  /** What `crc(data)` returns: the data and one trailing zero folded in, high half packed little-endian. */
  function Crc(data: Bytes): (r: Bytes)
    ensures |r| == 2
  {
    Le16(HighHalf(CrcRunning(data + [0])))
  }

  /** The two CRC bytes read back little-endian are bits 16..31 of the final running value. */
  lemma CrcIsHighHalf(data: Bytes)
    ensures Le16Value(Crc(data)) == HighHalf(CrcRunning(data + [0]))
    ensures 0 <= CrcRunning(data + [0]) < Modulus
  {
    Le16RoundTrip(HighHalf(CrcRunning(data + [0])), [0, 0]);
    RoundsBound(0, 8);
  }

  /** `__crc_inner`, with its eight-round loop. */
  method CrcInner(runningCrc: int, nextByte: int) returns (r: int)
    ensures r == Inner(runningCrc, nextByte)
    ensures 0 <= r < Modulus
  {
    var running := runningCrc % Modulus - runningCrc % 0x100;
    var next := nextByte % 0x100;
    running := Cap32(running + next);
    ghost var start := running;
    for i := 0 to 8
      invariant running == Rounds(start, i)
    {
      if running < 0x8000_0000 {
        running := Cap32(running * 2);
      } else {
        running := Cap32(running * 2);
        running := Cap32(running + CrcFeedback);
      }
    }
    r := running;
  }

  /** `crc`: folds every byte and a trailing zero into the seed. */
  method ComputeCrc(data: Bytes) returns (r: Bytes)
    ensures r == Crc(data)
  {
    var input := data + [0];
    var running := CrcSeed;
    for i := 0 to |input|
      invariant running == CrcRunning(input[..i])
    {
      assert input[..i + 1][..i] == input[..i];
      running := CrcInner(running, input[i]);
    }
    assert input[..|input|] == input;
    r := Le16(HighHalf(running));
  }

  // ---------------------------------------------------------------------
  // Validation
  // ---------------------------------------------------------------------

  /** Bytes 38 and 42: the sizes of the two game sections. */
  function Size1(d: Bytes): nat
    requires |d| >= 44
  {
    d[38] as nat
  }

  function Size2(d: Bytes): nat
    requires |d| >= 44
  {
    d[42] as nat
  }

  function GameSection1(d: Bytes): Bytes
    requires |d| >= 44
  {
    Slice(d, 44, 44 + Size1(d))
  }

  function GameSection2(d: Bytes): Bytes
    requires |d| >= 44
  {
    Slice(d, 44 + Size1(d), 44 + Size1(d) + Size2(d))
  }

  /** `validate`, check by check. */
  function Validate(data: Bytes, onlySystem: bool): bool {
    if |data| != 128 then false
    else if data[38] != data[39] then false
    else if data[42] != data[43] then false
    else if data[0..2] != Crc(data[2..18]) then false
    else if data[18..20] != Crc(data[20..36]) then false
    else if !onlySystem && data[36..38] != Crc(GameSection1(data)) then false
    else if !onlySystem && data[40..42] != Crc(GameSection2(data)) then false
    else true
  }

  /** The system checks of `validate`: length, size pairs, and both system CRCs. */
  ghost predicate SystemIntact(d: Bytes) {
    |d| == 128 && d[38] == d[39] && d[42] == d[43]
    && d[0..2] == Crc(d[2..18]) && d[18..20] == Crc(d[20..36])
  }

  /** Both game CRCs match the sections their sizes select. */
  ghost predicate GameIntact(d: Bytes)
    requires |d| >= 44
  {
    d[36..38] == Crc(GameSection1(d)) && d[40..42] == Crc(GameSection2(d))
  }

  /** `validate` accepts exactly the images whose system checks, and unless only_system their game checks, pass. */
  lemma ValidateMeans(data: Bytes, onlySystem: bool)
    ensures Validate(data, onlySystem) <==> SystemIntact(data) && (!onlySystem ==> GameIntact(data))
  {
  }

  /** A fully valid image is also valid for the system-only check. */
  lemma FullImpliesSystem(data: Bytes)
    requires Validate(data, false)
    ensures Validate(data, true)
  {
  }

  // ---------------------------------------------------------------------
  // CRC repair (__fix_crc)
  // ---------------------------------------------------------------------

  /** Positions the source never lets a caller write. */
  predicate IsCrcPosition(k: int) {
    k == 0 || k == 1 || k == 18 || k == 19 || k == 36 || k == 37 || k == 40 || k == 41
  }

  /** The image with both system CRCs recomputed: `crc(s1) + data[2:18] + crc(s2) + data[20:]`. */
  function SystemFixed(d: Bytes): Bytes {
    Crc(Slice(d, 2, 18)) + Slice(d, 2, 18) + Crc(Slice(d, 20, 36)) + Drop(d, 20)
  }

  /** From 36 bytes on the system repair keeps the length; below that it leaves fewer than 40 bytes. */
  lemma SystemFixedLength(d: Bytes)
    ensures |d| >= 36 ==> |SystemFixed(d)| == |d|
    ensures |d| < 36 ==> |SystemFixed(d)| < 40
  {
  }

  /** `data[:36] + crc(game_section1) + data[38:]` */
  function Game1Fixed(d: Bytes): (r: Bytes)
    requires |d| >= 44
    ensures |r| == |d|
  {
    d[..36] + Crc(GameSection1(d)) + d[38..]
  }

  /** `data[:40] + crc(game_section2) + data[42:]` */
  function Game2Fixed(d: Bytes): (r: Bytes)
    requires |d| >= 44
    ensures |r| == |d|
  {
    d[..40] + Crc(GameSection2(d)) + d[42..]
  }

  /** A game size that names a real section: neither 0 nor 0xFF. */
  predicate RealSize(n: int) {
    n != 0xFF && n != 0
  }

  /** The game-CRC stage of `__fix_crc`, once the sizes are known to match. */
  function GamesFixed(s: Bytes): Bytes
    requires |s| >= 44
  {
    if RealSize(s[38]) then
      var g := Game1Fixed(s);
      if RealSize(s[42]) then Game2Fixed(g) else g
    else s
  }

  /**
   * What `__fix_crc` does to `_data`: Ok(Some(image)) when it stores the
   * repaired image, Ok(None) when it returns early (which also drops the
   * system repair it has computed), Err when it raises. Below 40 bytes the
   * system repair leaves too few bytes for `struct.unpack` of 38..40, and
   * below 44 the same holds for 42..44.
   */
  function FixCrc(d: Bytes): Result<Option<Bytes>, Error> {
    if |d| < 40 then Err(StructError)
    else
      var s := SystemFixed(d);
      SystemFixedLength(d);
      if s[38] != s[39] then Ok(None)
      else if |d| < 44 then Err(StructError)
      else if s[42] != s[43] then Ok(None)
      else
        var f := GamesFixed(s);
        if |f| != 128 then Err(LogicError) else Ok(Some(f))
  }

  /** a and b hold the same bytes at positions lo..hi. */
  ghost predicate AgreeOn(a: Bytes, b: Bytes, lo: nat, hi: nat) {
    lo <= hi <= |a| && hi <= |b| && forall k :: lo <= k < hi ==> a[k] == b[k]
  }

  lemma AgreeSlice(a: Bytes, b: Bytes, lo: nat, hi: nat)
    requires AgreeOn(a, b, lo, hi)
    ensures a[lo..hi] == b[lo..hi]
  {
  }

  /** Besides the two size pairs, the system checks only look at bytes 0..36. */
  lemma SystemTransfer(a: Bytes, b: Bytes)
    requires |a| == 128 && |b| == 128 && AgreeOn(a, b, 0, 36)
    requires b[38] == b[39] && b[42] == b[43]
    requires SystemIntact(a)
    ensures SystemIntact(b)
  {
    AgreeSlice(a, b, 0, 2);
    AgreeSlice(a, b, 2, 18);
    AgreeSlice(a, b, 18, 20);
    AgreeSlice(a, b, 20, 36);
  }

  /** The game sections only depend on the two sizes and the bytes from 44 on. */
  lemma SectionsTransfer(a: Bytes, b: Bytes)
    requires |a| == |b| >= 128 && a[38] == b[38] && a[42] == b[42] && AgreeOn(a, b, 44, |a|)
    ensures GameSection1(a) == GameSection1(b) && GameSection2(a) == GameSection2(b)
  {
    SliceAgree(a, b, 44, 44 + Size1(a));
    SliceAgree(a, b, 44 + Size1(a), 44 + Size1(a) + Size2(a));
  }

  lemma SliceAgree(a: Bytes, b: Bytes, lo: nat, hi: nat)
    requires |a| == |b| && AgreeOn(a, b, if lo <= |a| then lo else |a|, |a|)
    ensures Slice(a, lo, hi) == Slice(b, lo, hi)
  {
    if lo > |a| {
    } else if hi <= |a| {
      if lo <= hi {
        AgreeSlice(a, b, lo, hi);
        assert Slice(a, lo, hi) == a[lo..hi];
        assert Slice(b, lo, hi) == b[lo..hi];
      }
    } else {
      AgreeSlice(a, b, lo, |a|);
    }
  }

  lemma SystemFixedAt(d: Bytes, k: int)
    requires |d| >= 44 && 0 <= k < |d|
    ensures |SystemFixed(d)| == |d|
    ensures 2 <= k < 18 || 20 <= k ==> SystemFixed(d)[k] == d[k]
    ensures SystemFixed(d)[0..2] == Crc(d[2..18]) && SystemFixed(d)[18..20] == Crc(d[20..36])
    ensures SystemFixed(d)[2..18] == d[2..18] && SystemFixed(d)[20..36] == d[20..36]
  {
    SliceInRange(d, 2, 18);
    SliceInRange(d, 20, 36);
  }

  /** Writing a game CRC leaves every other byte, in particular the sizes and the sections, alone. */
  lemma GameFixedKeeps(d: Bytes)
    requires |d| >= 44
    ensures forall k :: 0 <= k < |d| && k != 36 && k != 37 ==> Game1Fixed(d)[k] == d[k]
    ensures forall k :: 0 <= k < |d| && k != 40 && k != 41 ==> Game2Fixed(d)[k] == d[k]
    ensures Game1Fixed(d)[36..38] == Crc(GameSection1(d)) && Game2Fixed(d)[40..42] == Crc(GameSection2(d))
  {
  }

  /** On a size mismatch nothing is stored, so an image with broken system CRCs stays broken. */
  lemma FixSkipsOnMismatch(d: Bytes)
    requires |d| >= 44 && (d[38] != d[39] || d[42] != d[43])
    ensures FixCrc(d) == Ok(None)
  {
    SystemFixedAt(d, 38);
    SystemFixedAt(d, 39);
    SystemFixedAt(d, 42);
    SystemFixedAt(d, 43);
  }

  /** The repair stores an image exactly when the image has 128 bytes and both size pairs match. */
  lemma FixStoresIff(d: Bytes)
    ensures (FixCrc(d).Ok? && FixCrc(d).value.Some?) <==> |d| == 128 && d[38] == d[39] && d[42] == d[43]
    ensures FixCrc(d).Ok? && FixCrc(d).value.Some? ==> |FixCrc(d).value.value| == 128
  {
    if |d| >= 44 {
      SystemFixedAt(d, 38);
      SystemFixedAt(d, 39);
      SystemFixedAt(d, 42);
      SystemFixedAt(d, 43);
    }
  }

  /** The system repair fixes both system CRCs and keeps every other byte. */
  lemma SystemFixedIntact(d: Bytes)
    requires |d| == 128 && d[38] == d[39] && d[42] == d[43]
    ensures SystemIntact(SystemFixed(d)) && AgreeOn(SystemFixed(d), d, 36, 128)
  {
    var s := SystemFixed(d);
    SystemFixedAt(d, 0);
    forall k | 36 <= k < 128
      ensures s[k] == d[k]
    {
      SystemFixedAt(d, k);
    }
  }

  /** Writing game CRC 1 keeps the system checks and the sections, and makes game CRC 1 right. */
  lemma Game1FixedIntact(s: Bytes)
    requires |s| == 128 && SystemIntact(s)
    ensures SystemIntact(Game1Fixed(s))
    ensures Game1Fixed(s)[36..38] == Crc(GameSection1(Game1Fixed(s)))
    ensures AgreeOn(Game1Fixed(s), s, 38, 128)
  {
    var g := Game1Fixed(s);
    GameFixedKeeps(s);
    SystemTransfer(s, g);
    SectionsTransfer(g, s);
  }

  /** Writing game CRC 2 keeps the system checks, game CRC 1 and the sections, and makes game CRC 2 right. */
  lemma Game2FixedIntact(g: Bytes)
    requires |g| == 128 && SystemIntact(g)
    ensures SystemIntact(Game2Fixed(g))
    ensures Game2Fixed(g)[40..42] == Crc(GameSection2(Game2Fixed(g)))
    ensures Game2Fixed(g)[36..38] == g[36..38]
    ensures GameSection1(Game2Fixed(g)) == GameSection1(g)
  {
    var h := Game2Fixed(g);
    GameFixedKeeps(g);
    SystemTransfer(g, h);
    SectionsTransfer(h, g);
    AgreeSlice(h, g, 36, 38);
  }

  /** After the game stage the image is system-intact, and each game CRC whose size is real is right. */
  lemma GamesFixedIntact(s: Bytes)
    requires |s| == 128 && SystemIntact(s)
    ensures |GamesFixed(s)| == 128 && SystemIntact(GamesFixed(s))
    ensures GamesFixed(s)[38] == s[38] && GamesFixed(s)[42] == s[42]
    ensures RealSize(s[38]) ==> GamesFixed(s)[36..38] == Crc(GameSection1(GamesFixed(s)))
    ensures RealSize(s[38]) && RealSize(s[42]) ==> GamesFixed(s)[40..42] == Crc(GameSection2(GamesFixed(s)))
  {
    if RealSize(s[38]) {
      Game1FixedIntact(s);
      if RealSize(s[42]) {
        Game2FixedIntact(Game1Fixed(s));
      }
    }
  }

  /** With 128 bytes and matching sizes the stored image passes the system-only check. */
  lemma FixRepairsSystem(d: Bytes)
    requires |d| == 128 && d[38] == d[39] && d[42] == d[43]
    ensures FixCrc(d).Ok? && FixCrc(d).value.Some?
    ensures Validate(FixCrc(d).value.value, true)
  {
    FixStoresIff(d);
    SystemFixedIntact(d);
    GamesFixedIntact(SystemFixed(d));
    ValidateMeans(FixCrc(d).value.value, true);
  }

  /** When both sizes are real section sizes, the stored image passes the full check. */
  lemma FixRepairsAll(d: Bytes)
    requires |d| == 128 && d[38] == d[39] && d[42] == d[43]
    requires RealSize(d[38]) && RealSize(d[42])
    ensures FixCrc(d).Ok? && FixCrc(d).value.Some?
    ensures Validate(FixCrc(d).value.value, false)
  {
    FixStoresIff(d);
    SystemFixedIntact(d);
    GamesFixedIntact(SystemFixed(d));
    ValidateMeans(FixCrc(d).value.value, false);
  }

  /** The game stage only ever rewrites the CRC bytes of the sections it repairs. */
  lemma GamesFixedAt(s: Bytes, k: int)
    requires |s| >= 44 && 0 <= k < |s|
    ensures |GamesFixed(s)| == |s|
    ensures k != 36 && k != 37 && k != 40 && k != 41 ==> GamesFixed(s)[k] == s[k]
    ensures !RealSize(s[38]) && (k == 36 || k == 37) ==> GamesFixed(s)[k] == s[k]
    ensures !(RealSize(s[38]) && RealSize(s[42])) && (k == 40 || k == 41) ==> GamesFixed(s)[k] == s[k]
  {
    GameFixedKeeps(s);
    if RealSize(s[38]) {
      GameFixedKeeps(Game1Fixed(s));
    }
  }

  /**
   * A stored image differs from the old one only in CRC bytes: 0..2 and
   * 18..20 always, 36..38 only for a real size 1, 40..42 only when both
   * sizes are real.
   */
  lemma FixOnlyTouchesCrcs(d: Bytes, k: int)
    requires FixCrc(d).Ok? && FixCrc(d).value.Some? && 0 <= k < |d|
    ensures |FixCrc(d).value.value| == |d|
    ensures !IsCrcPosition(k) ==> FixCrc(d).value.value[k] == d[k]
    ensures !RealSize(d[38]) && (k == 36 || k == 37) ==> FixCrc(d).value.value[k] == d[k]
    ensures !(RealSize(d[38]) && RealSize(d[42])) && (k == 40 || k == 41) ==> FixCrc(d).value.value[k] == d[k]
  {
    FixStoresIff(d);
    SystemFixedAt(d, 38);
    SystemFixedAt(d, 42);
    SystemFixedAt(d, k);
    GamesFixedAt(SystemFixed(d), k);
  }

  /** An image whose CRCs are all right is its own repair. */
  lemma SystemFixedNoop(d: Bytes)
    requires SystemIntact(d)
    ensures SystemFixed(d) == d
  {
    SystemFixedAt(d, 0);
    assert d == d[0..2] + d[2..18] + d[18..20] + d[20..];
  }

  lemma Game1FixedNoop(d: Bytes)
    requires |d| >= 44 && d[36..38] == Crc(GameSection1(d))
    ensures Game1Fixed(d) == d
  {
    assert d == d[..36] + d[36..38] + d[38..];
  }

  lemma Game2FixedNoop(d: Bytes)
    requires |d| >= 44 && d[40..42] == Crc(GameSection2(d))
    ensures Game2Fixed(d) == d
  {
    assert d == d[..40] + d[40..42] + d[42..];
  }

  /** Repairing a stored image again stores the same image: reading `data` twice gives the same bytes. */
  lemma FixIdempotent(d: Bytes)
    requires FixCrc(d).Ok? && FixCrc(d).value.Some?
    ensures FixCrc(FixCrc(d).value.value) == FixCrc(d)
  {
    FixStoresIff(d);
    SystemFixedIntact(d);
    var s := SystemFixed(d);
    GamesFixedIntact(s);
    var v := GamesFixed(s);
    SystemFixedNoop(v);
    if RealSize(v[38]) {
      Game1FixedNoop(v);
      if RealSize(v[42]) {
        Game2FixedNoop(v);
      }
    }
  }

  // ---------------------------------------------------------------------
  // Byte access
  // ---------------------------------------------------------------------

  /** A `__setitem__` key: an index, or a slice (its step is not modelled). */
  datatype Key = At(index: int) | Range(start: Option<int>, stop: Option<int>)

  /** A `__setitem__` value: an int, turned into one byte by `bytes([v])`, or a byte string. */
  datatype Value = IntVal(n: int) | Raw(raw: Bytes)

  /** The bytes a value is spliced in as; `bytes([v])` raises ValueError outside 0..255. */
  function ValueBytes(val: Value): Result<Bytes, Error> {
    match val
    case IntVal(n) => if 0 <= n < 256 then Ok([n]) else Err(ByteRange)
    case Raw(b) => Ok(b)
  }

  /** The image after a write, and whether the write raised. A write that raises Logic error has already stored its result. */
  datatype Outcome = Outcome(data: Bytes, result: Result<(), Error>)

  /** The length check that ends every write. */
  function Checked(d: Bytes): Outcome {
    Outcome(d, if |d| != 128 then Err(LogicError) else Ok(()))
  }

  /** `NaomiEEPRom.__getitem__` with an int key. */
  function ImageGet(d: Bytes, key: int): Result<Byte, Error> {
    if key < 0 || key >= 128 then Err(OutsideImage)
    else if key >= |d| then Err(IndexOutOfRange)
    else Ok(d[key])
  }

  /** A slice bound of `__getitem__`: None takes the default, a negative bound raises. */
  function Bound(b: Option<int>, default: nat): Result<nat, Error> {
    match b
    case None => Ok(default)
    case Some(n) => if n < 0 then Err(NegativeIndex) else Ok(n)
  }

  /** `NaomiEEPRom.__getitem__` with a slice key. */
  function ImageRange(d: Bytes, start: Option<int>, stop: Option<int>): Result<Bytes, Error> {
    match Bound(start, 0)
    case Err(e) => Err(e)
    case Ok(a) =>
      match Bound(stop, 128)
      case Err(e) => Err(e)
      case Ok(b) => if b > 128 then Err(OutsideImage) else Ok(Slice(d, a, b))
  }

  /** `NaomiEEPRom.__setitem__`. */
  function ImageSet(d: Bytes, key: Key, val: Value): Outcome {
    match key
    case Range(_, _) => Outcome(d, Err(MultiByteWrite))
    case At(k) =>
      if IsCrcPosition(k) then Outcome(d, Err(CrcByteWrite))
      else if k < 0 || k >= 128 then Outcome(d, Err(OutsideImage))
      else
        match ValueBytes(val)
        case Err(e) => Outcome(d, Err(e))
        case Ok(v) => Checked(Splice(d, k, v))
  }

  /** Reads inside the image succeed exactly for keys 0..127, and return that byte. */
  lemma ImageGetMeans(d: Bytes, key: int)
    requires |d| == 128
    ensures ImageGet(d, key).Ok? <==> 0 <= key < 128
    ensures ImageGet(d, key).Ok? ==> ImageGet(d, key).value == d[key]
  {
  }

  /** A slice read raises exactly for a negative bound or a stop past 128; within the image it is that slice. */
  lemma ImageRangeMeans(d: Bytes, start: Option<int>, stop: Option<int>)
    ensures ImageRange(d, start, stop).Err? <==>
      (start.Some? && start.value < 0) || (stop.Some? && (stop.value < 0 || stop.value > 128))
    ensures |d| == 128 && start.Some? && stop.Some? && 0 <= start.value <= stop.value <= 128 ==>
      ImageRange(d, start, stop) == Ok(d[start.value..stop.value])
    ensures |d| == 128 ==> ImageRange(d, None, None) == Ok(d)
  {
    if |d| == 128 {
      SliceInRange(d, 0, 128);
      assert d[0..128] == d;
      if start.Some? && stop.Some? && 0 <= start.value <= stop.value <= 128 {
        SliceInRange(d, start.value, stop.value);
      }
    }
  }

  /**
   * On a 128-byte image, a one-byte write outside the CRC positions changes
   * exactly that byte; a CRC position, a key outside the image or a slice
   * key raises and changes nothing.
   */
  lemma ImageSetMeans(d: Bytes, key: Key, v: Byte)
    requires |d| == 128
    ensures key.At? && !IsCrcPosition(key.index) && 0 <= key.index < 128 ==>
      ImageSet(d, key, IntVal(v)) == Outcome(d[key.index := v], Ok(()))
    ensures ImageSet(d, key, IntVal(v)).result.Err? <==>
      key.Range? || IsCrcPosition(key.index) || key.index < 0 || key.index >= 128
    ensures ImageSet(d, key, IntVal(v)).result.Err? ==> ImageSet(d, key, IntVal(v)).data == d
  {
    if key.At? && 0 <= key.index < 128 {
      SpliceOne(d, key.index, v);
    }
  }

  /** A write keeps the length at 128 exactly when the value is a single byte (or an int in range). */
  lemma ImageSetLength(d: Bytes, k: int, val: Value)
    requires |d| == 128 && !IsCrcPosition(k) && 0 <= k < 128 && ValueBytes(val).Ok?
    ensures ImageSet(d, At(k), val).result.Ok? <==> |ValueBytes(val).value| == 1
    ensures |ImageSet(d, At(k), val).data| == 127 + |ValueBytes(val).value|
  {
  }

  /** `ArrayBridge.__getitem__` with an int key: first copy only. */
  function BridgeGet(d: Bytes, length: nat, offset1: nat, key: int): Result<Byte, Error> {
    if key < 0 || key >= length then Err(OutsideSection)
    else if key + offset1 >= |d| then Err(IndexOutOfRange)
    else Ok(d[key + offset1])
  }

  /** `ArrayBridge.__getitem__` with a slice key: bounds are relative to the first copy. */
  function BridgeRange(d: Bytes, length: nat, offset1: nat, start: Option<int>, stop: Option<int>): Result<Bytes, Error> {
    match Bound(start, 0)
    case Err(e) => Err(e)
    case Ok(a) =>
      match Bound(stop, length)
      case Err(e) => Err(e)
      case Ok(b) => if b > length then Err(OutsideSection) else Ok(Slice(d, offset1 + a, offset1 + b))
  }

  /** Within the image, a bridge read succeeds exactly for keys inside the section, and reads the first copy. */
  lemma BridgeGetMeans(d: Bytes, length: nat, offset1: nat, key: int)
    requires offset1 + length <= |d|
    ensures BridgeGet(d, length, offset1, key).Ok? <==> 0 <= key < length
    ensures BridgeGet(d, length, offset1, key).Ok? ==> BridgeGet(d, length, offset1, key).value == d[offset1 + key]
  {
  }

  /** A bridge slice read raises exactly for a negative bound or a stop past the section; a full read is the first copy. */
  lemma BridgeRangeMeans(d: Bytes, length: nat, offset1: nat, start: Option<int>, stop: Option<int>)
    requires offset1 + length <= |d|
    ensures BridgeRange(d, length, offset1, start, stop).Err? <==>
      (start.Some? && start.value < 0) || (stop.Some? && (stop.value < 0 || stop.value > length))
    ensures BridgeRange(d, length, offset1, None, None) == Ok(d[offset1..offset1 + length])
  {
  }

  /** `ArrayBridge.__setitem__`: the value is spliced in at both copies, first then second. */
  function BridgeSet(d: Bytes, length: nat, offset1: nat, offset2: nat, key: Key, val: Value): Outcome {
    match key
    case Range(_, _) => Outcome(d, Err(MultiByteWrite))
    case At(k) =>
      if k < 0 || k >= length then Outcome(d, Err(OutsideSection))
      else
        match ValueBytes(val)
        case Err(e) => Outcome(d, Err(e))
        case Ok(v) => Checked(Splice(Splice(d, k + offset1, v), k + offset2, v))
  }

  /**
   * With both copies inside a 128-byte image, a one-byte bridge write sets
   * the byte in both copies and nothing else; keys outside the section
   * raise and change nothing.
   */
  lemma BridgeSetMeans(d: Bytes, length: nat, offset1: nat, offset2: nat, k: int, v: Byte)
    requires |d| == 128 && offset1 + length <= 128 && offset2 + length <= 128
    ensures 0 <= k < length ==>
      BridgeSet(d, length, offset1, offset2, At(k), IntVal(v)) == Outcome(d[k + offset1 := v][k + offset2 := v], Ok(()))
    ensures !(0 <= k < length) ==>
      BridgeSet(d, length, offset1, offset2, At(k), IntVal(v)) == Outcome(d, Err(OutsideSection))
  {
    if 0 <= k < length {
      SpliceOne(d, k + offset1, v);
      SpliceOne(d[k + offset1 := v], k + offset2, v);
    }
  }

  /** What a bridge write stored reads back through the bridge. */
  lemma BridgeReadBack(d: Bytes, length: nat, offset1: nat, offset2: nat, k: int, v: Byte)
    requires |d| == 128 && offset1 + length <= 128 && offset2 + length <= 128 && 0 <= k < length
    ensures BridgeGet(BridgeSet(d, length, offset1, offset2, At(k), IntVal(v)).data, length, offset1, k) == Ok(v)
  {
    BridgeSetMeans(d, length, offset1, offset2, k, v);
  }

  /** The two system copies hold the same bytes. */
  ghost predicate SystemMirrored(d: Bytes) {
    |d| >= 36 && d[2..18] == d[20..36]
  }

  /** Writes through the system bridge (16, 2, 20) keep the two copies equal. */
  lemma SystemBridgeKeepsMirror(d: Bytes, k: int, v: Byte)
    requires |d| == 128 && SystemMirrored(d)
    ensures SystemMirrored(BridgeSet(d, 16, 2, 20, At(k), IntVal(v)).data)
  {
    BridgeSetMeans(d, 16, 2, 20, k, v);
    if 0 <= k < 16 {
      var e := d[k + 2 := v][k + 20 := v];
      forall i | 0 <= i < 16
        ensures e[2..18][i] == e[20..36][i]
      {
        assert d[2..18][i] == d[20..36][i];
      }
    }
  }

  /** Writes through the system bridge leave the game sizes and the game area alone. */
  lemma SystemBridgeKeepsGame(d: Bytes, k: int, v: Byte)
    requires |d| == 128
    ensures BridgeSet(d, 16, 2, 20, At(k), IntVal(v)).data[36..] == d[36..]
  {
    BridgeSetMeans(d, 16, 2, 20, k, v);
  }

  // ---------------------------------------------------------------------
  // Game section length
  // ---------------------------------------------------------------------

  /** The `length` property: byte 38, read with `struct.unpack("<B", data[38:39])`. */
  function LengthOf(d: Bytes): (r: Result<Byte, Error>)
    ensures r.Ok? <==> |d| >= 39
    ensures r.Ok? ==> r.value == d[38]
    ensures r.Err? ==> r.error == StructError
  {
    if |d| > 38 then Ok(d[38]) else Err(StructError)
  }

  /**
   * The `length` setter as written: a value outside 0..42 raises, and any
   * other value reaches `struct.pack("<BB", (n, n))`, which raises
   * struct.error because it is given one tuple instead of two integers.
   * Nothing is stored either way.
   */
  function SetLengthResult(n: int): (r: Result<(), Error>) {
    if n < 0 || n > 42 then Err(InvalidLength) else Err(StructError)
  }

  lemma SetLengthAlwaysRaises(n: int)
    ensures SetLengthResult(n).Err?
    ensures SetLengthResult(n) == Err(InvalidLength) <==> n < 0 || n > 42
  {
  }

  /** The setter with `struct.pack("<BB", n, n)`: both size pairs become n. */
  function SetLengthIntended(d: Bytes, n: int): Outcome {
    if n < 0 || n > 42 then Outcome(d, Err(InvalidLength))
    else Checked(Take(d, 38) + [n, n] + Slice(d, 40, 42) + [n, n] + Drop(d, 44))
  }

  /**
   * On a 128-byte image the intended setter stores n in bytes 38, 39, 42
   * and 43, changes nothing else, and keeps a system-valid image valid.
   */
  lemma SetLengthIntendedMeans(d: Bytes, n: int)
    requires |d| == 128 && 0 <= n <= 42
    ensures SetLengthIntended(d, n).result.Ok?
    ensures LengthOf(SetLengthIntended(d, n).data) == Ok(n)
    ensures SetLengthIntended(d, n).data == d[38 := n][39 := n][42 := n][43 := n]
    ensures Validate(d, true) ==> Validate(SetLengthIntended(d, n).data, true)
  {
    var e := SetLengthIntended(d, n).data;
    assert e == d[38 := n][39 := n][42 := n][43 := n];
    if Validate(d, true) {
      ValidateMeans(d, true);
      SystemTransfer(d, e);
      ValidateMeans(e, true);
    }
  }

  // ---------------------------------------------------------------------
  // Default image
  // ---------------------------------------------------------------------

  /** The 16-byte system section `default` builds around a serial. */
  function SystemBlock(serial: Bytes): Bytes {
    [0x10] + serial + [0x18, 0x10, 0x00, 0x01, 0x01, 0x01, 0x00, 0x11, 0x11, 0x11, 0x11]
  }

  /** `n` copies of `unit`. */
  function Repeat(unit: Bytes, n: nat): (r: Bytes)
    ensures |r| == n * |unit|
  {
    if n == 0 then [] else unit + Repeat(unit, n - 1)
  }

  /** The literal `b'\0xFF'`: a NUL byte followed by the characters 'x', 'F', 'F'. */
  function FillerAsWritten(): Bytes {
    [0x00, 0x78, 0x46, 0x46]
  }

  /** Both system copies, each preceded by its CRC. */
  function SystemArea(serial: Bytes): Bytes {
    var system := SystemBlock(serial);
    Crc(system) + system + Crc(system) + system
  }

  /**
   * The bytes `default` hands to the constructor, or the exception it
   * raises first: a serial other than 4 bytes raises, and with game
   * defaults `struct.pack("<BB", (n, n))` raises.
   */
  function DefaultImage(serial: Bytes, gameDefaults: Option<Bytes>): Result<Bytes, Error> {
    if |serial| != 4 then Err(InvalidSerial)
    else if gameDefaults.Some? then Err(StructError)
    else Ok(SystemArea(serial) + Repeat(FillerAsWritten(), 128 - 18 * 2))
  }

  /** The system area has the documented layout: CRC, system block with the serial at 3..7, CRC, copy. */
  lemma SystemAreaLayout(serial: Bytes)
    requires |serial| == 4
    ensures |SystemArea(serial)| == 36
    ensures SystemArea(serial)[2..18] == SystemBlock(serial) && SystemArea(serial)[20..36] == SystemBlock(serial)
    ensures SystemArea(serial)[0..2] == Crc(SystemArea(serial)[2..18])
    ensures SystemArea(serial)[18..20] == Crc(SystemArea(serial)[20..36])
    ensures SystemArea(serial)[3..7] == serial
  {
    var a := SystemArea(serial);
    var system := SystemBlock(serial);
    assert a[2..18] == system;
    assert a[20..36] == system;
    assert a[3..7] == system[1..5] == serial;
  }

  /** As written, `default` without game defaults builds a 404-byte image, which validation rejects. */
  lemma DefaultImageTooLong(serial: Bytes)
    requires |serial| == 4
    ensures DefaultImage(serial, None).Ok? && |DefaultImage(serial, None).value| == 404
    ensures !Validate(DefaultImage(serial, None).value, true)
  {
  }

  /** Two headers (CRC, size, size) followed by two copies of g. */
  function HeadersAndCopies(g: Bytes): Bytes
    requires |g| < 256
  {
    var header := Crc(g) + [|g|, |g|];
    header + header + g + g
  }

  /**
   * The settings `default` builds once the header packs (line 89 aside),
   * padded as written: the padding is counted up to 84 bytes and made of
   * copies of the 4-byte literal `b'\0xFF'`.
   */
  function GameSettingsAsWritten(gameDefaults: Bytes): Bytes
    requires |gameDefaults| < 256
  {
    var settings := HeadersAndCopies(gameDefaults);
    var paddingLen := (128 - 18 * 2 - 4 * 2) - |settings|;
    if paddingLen > 0 then settings + Repeat(FillerAsWritten(), paddingLen) else settings
  }

  /**
   * As written, defaults of n < 38 bytes give 312 - 6n bytes of settings
   * (306 for one byte) and longer ones 8 + 2n, so the 92 bytes after the
   * system area come out only for n == 42.
   */
  lemma GameSettingsAsWrittenLength(gameDefaults: Bytes)
    requires |gameDefaults| < 256
    ensures |gameDefaults| < 38 ==> |GameSettingsAsWritten(gameDefaults)| == 312 - 6 * |gameDefaults|
    ensures |gameDefaults| >= 38 ==> |GameSettingsAsWritten(gameDefaults)| == 8 + 2 * |gameDefaults|
    ensures |GameSettingsAsWritten(gameDefaults)| == 128 - 18 * 2 <==> |gameDefaults| == 42
  {
    var n := |gameDefaults|;
    HeadersAndCopiesLength(gameDefaults);
    if n < 38 {
      FillerRepeatLength(76 - 2 * n);
    }
  }

  lemma HeadersAndCopiesLength(g: Bytes)
    requires |g| < 256
    ensures |HeadersAndCopies(g)| == 8 + 2 * |g|
  {
  }

  lemma FillerRepeatLength(k: nat)
    ensures |Repeat(FillerAsWritten(), k)| == 4 * k
  {
  }


  /** The settings `default` evidently means to build: 0xFF filler and padding to 92 bytes. */
  function GameSettingsIntended(gameDefaults: Option<Bytes>): Result<Bytes, Error> {
    match gameDefaults
    case None => Ok(Repeat([0xFF], 128 - 18 * 2))
    case Some(g) =>
      if |g| >= 256 then Err(StructError)
      else
        var settings := HeadersAndCopies(g);
        var paddingLen := (128 - 18 * 2) - |settings|;
        Ok(if paddingLen > 0 then settings + Repeat([0xFF], paddingLen) else settings)
  }

  function DefaultImageIntended(serial: Bytes, gameDefaults: Option<Bytes>): Result<Bytes, Error> {
    if |serial| != 4 then Err(InvalidSerial)
    else
      match GameSettingsIntended(gameDefaults)
      case Err(e) => Err(e)
      case Ok(settings) => Ok(SystemArea(serial) + settings)
  }

  /** Every byte of a repeated 0xFF filler is 0xFF. */
  lemma RepeatFF(n: nat, i: int)
    requires 0 <= i < n
    ensures Repeat([0xFF], n)[i] == 0xFF
  {
    if i > 0 {
      RepeatFF(n - 1, i - 1);
    }
  }

  /** The intended default without game defaults is a 128-byte image that passes the system check and keeps the serial. */
  lemma DefaultIntendedBare(serial: Bytes)
    requires |serial| == 4
    ensures DefaultImageIntended(serial, None).Ok?
    ensures Validate(DefaultImageIntended(serial, None).value, true)
    ensures DefaultImageIntended(serial, None).value[3..7] == serial
  {
    SystemAreaLayout(serial);
    var a := SystemArea(serial);
    var img := DefaultImageIntended(serial, None).value;
    assert img == a + Repeat([0xFF], 92);
    assert img[0..36] == a;
    assert img[0..2] == a[0..2] && img[2..18] == a[2..18] && img[18..20] == a[18..20] && img[20..36] == a[20..36];
    RepeatFF(92, 2);
    RepeatFF(92, 3);
    RepeatFF(92, 6);
    RepeatFF(92, 7);
    ValidateMeans(img, true);
  }

  lemma HeadersLayout(g: Bytes)
    requires |g| < 256
    ensures var h := HeadersAndCopies(g);
      |h| == 8 + 2 * |g| && h[0..2] == Crc(g) && h[4..6] == Crc(g)
      && h[2] == |g| && h[3] == |g| && h[6] == |g| && h[7] == |g|
      && h[8..8 + |g|] == g && h[8 + |g|..8 + 2 * |g|] == g
  {
    var h := HeadersAndCopies(g);
    assert h[0..2] == Crc(g);
    assert h[4..6] == Crc(g);
    assert h[8..8 + |g|] == g;
    assert h[8 + |g|..8 + 2 * |g|] == g;
  }

  /** A slice inside a prefix is the same slice of the prefix. */
  lemma SliceBefore(a: Bytes, b: Bytes, i: nat, j: nat)
    requires i <= j <= |a|
    ensures (a + b)[i..j] == a[i..j]
  {
  }

  /** The intended settings for game defaults of at most 42 bytes: two headers, two copies, 0xFF padding. */
  lemma SettingsLayout(g: Bytes)
    requires |g| <= 42
    ensures GameSettingsIntended(Some(g)).Ok?
    ensures var st := GameSettingsIntended(Some(g)).value;
      |st| == 92 && st[0..2] == Crc(g) && st[4..6] == Crc(g)
      && st[2] == |g| && st[3] == |g| && st[6] == |g| && st[7] == |g|
      && st[8..8 + |g|] == g && st[8 + |g|..8 + 2 * |g|] == g
  {
    var n := |g|;
    var h := HeadersAndCopies(g);
    var pad := Repeat([0xFF], 92 - (8 + 2 * n));
    HeadersLayout(g);
    assert GameSettingsIntended(Some(g)).value == h + pad;
    SliceBefore(h, pad, 0, 2);
    SliceBefore(h, pad, 4, 6);
    SliceBefore(h, pad, 8, 8 + n);
    SliceBefore(h, pad, 8 + n, 8 + 2 * n);
  }

  /** A slice past a prefix is the same slice of the rest. */
  lemma SliceAfter(a: Bytes, b: Bytes, i: nat, j: nat)
    requires i <= j <= |b|
    ensures (a + b)[|a| + i..|a| + j] == b[i..j]
  {
  }

  /** A 36-byte system area with good CRCs, followed by 92 bytes whose size pairs match, is system-intact. */
  lemma SystemOfParts(a: Bytes, st: Bytes)
    requires |a| == 36 && |st| == 92
    requires a[0..2] == Crc(a[2..18]) && a[18..20] == Crc(a[20..36])
    requires st[2] == st[3] && st[6] == st[7]
    ensures SystemIntact(a + st)
  {
    var img := a + st;
    assert img[0..36] == a;
    assert img[0..2] == a[0..2] && img[2..18] == a[2..18] && img[18..20] == a[18..20] && img[20..36] == a[20..36];
  }

  /** Settings holding two copies of g, each under its CRC and size, make both game CRCs right. */
  lemma GamesOfParts(a: Bytes, st: Bytes, g: Bytes)
    requires |a| == 36 && |st| == 92 && |g| <= 42
    requires st[0..2] == Crc(g) && st[4..6] == Crc(g) && st[2] == |g| && st[6] == |g|
    requires st[8..8 + |g|] == g && st[8 + |g|..8 + 2 * |g|] == g
    ensures GameIntact(a + st)
  {
    var img := a + st;
    var n := |g|;
    SliceAfter(a, st, 0, 2);
    SliceAfter(a, st, 4, 6);
    SliceAfter(a, st, 8, 8 + n);
    SliceAfter(a, st, 8 + n, 8 + 2 * n);
    SliceInRange(img, 44, 44 + n);
    SliceInRange(img, 44 + n, 44 + 2 * n);
  }

  /**
   * The intended default with game defaults of at most 42 bytes is a
   * 128-byte image that passes the full check: each game section is a
   * copy of the defaults under its own CRC.
   */
  lemma DefaultIntendedGame(serial: Bytes, g: Bytes)
    requires |serial| == 4 && |g| <= 42
    ensures DefaultImageIntended(serial, Some(g)).Ok?
    ensures Validate(DefaultImageIntended(serial, Some(g)).value, false)
  {
    SystemAreaLayout(serial);
    SettingsLayout(g);
    var a := SystemArea(serial);
    var st := GameSettingsIntended(Some(g)).value;
    SystemOfParts(a, st);
    GamesOfParts(a, st, g);
    ValidateMeans(a + st, false);
  }

  // ---------------------------------------------------------------------
  // The image and its bridges
  // ---------------------------------------------------------------------

  /** `ArrayBridge`: a window of `length` bytes mirrored at `offset1` and `offset2` of its parent image. */
  class ArrayBridge {
    const name: string
    const length: nat
    const offset1: nat
    const offset2: nat
    const parent: NaomiEEPRom

    constructor(parent: NaomiEEPRom, name: string, length: nat, offset1: nat, offset2: nat)
      ensures this.parent == parent && this.name == name
      ensures this.length == length && this.offset1 == offset1 && this.offset2 == offset2
    {
      this.parent := parent;
      this.name := name;
      this.length := length;
      this.offset1 := offset1;
      this.offset2 := offset2;
    }

    /** The first copy, `_data[offset1:offset1 + length]`: the section as the full slice reads it. */
    function Data(): (r: Bytes)
      reads parent
      ensures offset1 + length <= |parent.bytes| ==> r == parent.bytes[offset1..offset1 + length]
      ensures |r| <= length
      ensures GetRange(None, None) == Ok(r)
    {
      Slice(parent.bytes, offset1, offset1 + length)
    }

    function GetAt(key: int): (r: Result<Byte, Error>)
      reads parent
    {
      BridgeGet(parent.bytes, length, offset1, key)
    }

    function GetRange(start: Option<int>, stop: Option<int>): Result<Bytes, Error>
      reads parent
    {
      BridgeRange(parent.bytes, length, offset1, start, stop)
    }

    method SetItem(key: Key, val: Value) returns (r: Result<(), Error>)
      modifies parent
      ensures parent.bytes == BridgeSet(old(parent.bytes), length, offset1, offset2, key, val).data
      ensures r == BridgeSet(old(parent.bytes), length, offset1, offset2, key, val).result
    {
      var d := parent.bytes;
      if key.Range? {
        return Err(MultiByteWrite);
      }
      var k := key.index;
      if k < 0 || k >= length {
        return Err(OutsideSection);
      }
      var converted := ValueBytes(val);
      if converted.Err? {
        return Err(converted.error);
      }
      var v := converted.value;
      d := Splice(d, k + offset1, v);
      d := Splice(d, k + offset2, v);
      parent.bytes := d;
      if |d| != 128 {
        return Err(LogicError);
      }
      r := Ok(());
    }
  }

  /** `NaomiEEPRom`: the image `_data`, which the constructor checks and every write replaces. */
  class NaomiEEPRom {
    var bytes: Bytes

    /** `__init__`, reached only through Create, which raises instead when the system check fails. */
    constructor(data: Bytes)
      requires Validate(data, true)
      ensures bytes == data
    {
      bytes := data;
    }

    /** `NaomiEEPRom(data)`: raises exactly when the system-only validation fails. */
    static method Create(data: Bytes) returns (r: Result<NaomiEEPRom, Error>)
      ensures r.Ok? <==> Validate(data, true)
      ensures r.Err? ==> r.error == InvalidCrc
      ensures r.Ok? ==> fresh(r.value) && r.value.bytes == data
    {
      if !Validate(data, true) {
        return Err(InvalidCrc);
      }
      var e := new NaomiEEPRom(data);
      r := Ok(e);
    }

    /** `default`: builds the image for a serial and hands it to the constructor. */
    static method Default(serial: Bytes, gameDefaults: Option<Bytes>) returns (r: Result<NaomiEEPRom, Error>)
      ensures |serial| != 4 ==> r == Err(InvalidSerial)
      ensures |serial| == 4 && gameDefaults.Some? ==> r == Err(StructError)
      ensures |serial| == 4 && gameDefaults.None? ==> r == Err(InvalidCrc)
      ensures r.Err?
    {
      if |serial| != 4 {
        return Err(InvalidSerial);
      }
      if gameDefaults.Some? {
        return Err(StructError);
      }
      var system := SystemBlock(serial);
      var systemCrc := ComputeCrc(system);
      var image := systemCrc + system + systemCrc + system + Repeat(FillerAsWritten(), 128 - 18 * 2);
      DefaultImageTooLong(serial);
      assert image == DefaultImage(serial, None).value;
      r := Create(image);
    }

    /** The `data` property: runs `__fix_crc`, then returns `_data`. */
    method Data() returns (r: Result<Bytes, Error>)
      modifies this
      ensures FixCrc(old(bytes)).Ok? && FixCrc(old(bytes)).value.Some? ==> bytes == FixCrc(old(bytes)).value.value
      ensures !(FixCrc(old(bytes)).Ok? && FixCrc(old(bytes)).value.Some?) ==> bytes == old(bytes)
      ensures FixCrc(old(bytes)).Err? ==> r == Err(FixCrc(old(bytes)).error)
      ensures FixCrc(old(bytes)).Ok? ==> r == Ok(bytes)
    {
      var data := FixSystemCrcs(bytes);
      SystemFixedLength(bytes);
      if |data| < 40 {
        return Err(StructError);
      }
      if data[38] != data[39] {
        return Ok(bytes);
      }
      if |data| < 44 {
        return Err(StructError);
      }
      if data[42] != data[43] {
        return Ok(bytes);
      }
      data := FixGameCrcs(data);
      if |data| != 128 {
        return Err(LogicError);
      }
      bytes := data;
      r := Ok(bytes);
    }

    /** `serial`: bytes 3..7 of the first system copy. */
    function Serial(): (r: Bytes)
      reads this
      ensures |bytes| >= 7 ==> r == bytes[3..7]
      ensures |r| <= 4
    {
      Slice(bytes, 3, 7)
    }

    /** The `length` property. */
    function Length(): Result<Byte, Error>
      reads this
    {
      LengthOf(bytes)
    }

    /** The `length` setter as written; see SetLengthResult. */
    method SetLength(n: int) returns (r: Result<(), Error>)
      ensures r == SetLengthResult(n)
    {
      if n < 0 || n > 42 {
        return Err(InvalidLength);
      }
      r := Err(StructError);
    }

    /** The `system` property: a bridge over the 16-byte system section mirrored at 2 and 20. */
    method System() returns (b: ArrayBridge)
      ensures fresh(b) && b.parent == this && b.name == "system"
      ensures b.length == 16 && b.offset1 == 2 && b.offset2 == 20
    {
      b := new ArrayBridge(this, "system", 16, 2, 20);
    }

    /** The `game` property: a bridge of `length` bytes mirrored at 44 and 44 + length. */
    method Game() returns (r: Result<ArrayBridge, Error>)
      ensures Length().Err? ==> r == Err(Length().error)
      ensures Length().Ok? ==> r.Ok? && fresh(r.value) && r.value.parent == this && r.value.name == "game"
      ensures Length().Ok? ==> r.value.length == Length().value && r.value.offset1 == 44 && r.value.offset2 == 44 + Length().value
    {
      match Length() {
        case Err(e) =>
          return Err(e);
        case Ok(n) =>
          var b := new ArrayBridge(this, "game", n, 44, 44 + n);
          return Ok(b);
      }
    }

    function GetAt(key: int): Result<Byte, Error>
      reads this
    {
      ImageGet(bytes, key)
    }

    function GetRange(start: Option<int>, stop: Option<int>): Result<Bytes, Error>
      reads this
    {
      ImageRange(bytes, start, stop)
    }

    /** `__setitem__`. */
    method SetItem(key: Key, val: Value) returns (r: Result<(), Error>)
      modifies this
      ensures bytes == ImageSet(old(bytes), key, val).data
      ensures r == ImageSet(old(bytes), key, val).result
    {
      if key.Range? {
        return Err(MultiByteWrite);
      }
      var k := key.index;
      if IsCrcPosition(k) {
        return Err(CrcByteWrite);
      }
      if k < 0 || k >= 128 {
        return Err(OutsideImage);
      }
      var converted := ValueBytes(val);
      if converted.Err? {
        return Err(converted.error);
      }
      var v := converted.value;
      bytes := Splice(bytes, k, v);
      if |bytes| != 128 {
        return Err(LogicError);
      }
      r := Ok(());
    }
  }

  /** The system step of `__fix_crc`, computing both CRCs with `crc`. */
  method FixSystemCrcs(d: Bytes) returns (r: Bytes)
    ensures r == SystemFixed(d)
  {
    var section1 := Slice(d, 2, 18);
    var section2 := Slice(d, 20, 36);
    var crc1 := ComputeCrc(section1);
    var crc2 := ComputeCrc(section2);
    r := crc1 + section1 + crc2 + Drop(d, 20);
  }

  /** The game step of `__fix_crc`, once both size pairs match. */
  method FixGameCrcs(d: Bytes) returns (r: Bytes)
    requires |d| >= 44
    ensures r == GamesFixed(d)
  {
    r := d;
    var size1 := d[38] as int;
    var size3 := d[42] as int;
    if size1 != 0xFF && size1 != 0 {
      r := FixGame1Crc(r);
      if size3 != 0xFF && size3 != 0 {
        r := FixGame2Crc(r);
      }
    }
  }

  /** `data[:36] + crc(data[44:44 + size1]) + data[38:]` */
  method FixGame1Crc(d: Bytes) returns (r: Bytes)
    requires |d| >= 44
    ensures r == Game1Fixed(d)
  {
    var size1 := d[38] as int;
    var crc1 := ComputeCrc(Slice(d, 44, 44 + size1));
    r := d[..36] + crc1 + d[38..];
  }

  /** `data[:40] + crc(data[44 + size1:44 + size1 + size3]) + data[42:]` */
  method FixGame2Crc(d: Bytes) returns (r: Bytes)
    requires |d| >= 44
    ensures r == Game2Fixed(d)
  {
    var size1 := d[38] as int;
    var size3 := d[42] as int;
    var crc2 := ComputeCrc(Slice(d, 44 + size1, 44 + size1 + size3));
    r := d[..40] + crc2 + d[42..];
  }
}
