/** Application images of the bootloader: as words, as bytes, in memory and in the SPI flash. */
module BootImage {
  import opened Words
  import opened FatVolume

  const SIGNATURE: Word := 0x214F_454E
  const HEADER_SIZE := 16

  /** The SPI flash, as configured: three address bytes, sectors of 64 kB, images from here on. */
  const FLASH_BASE: Word := 0x0040_0000
  const FLASH_SIZE := 0x100_0000
  const SECTOR_SIZE := 0x1_0000

  // ---- words and bytes

  function WordBytes(w: Word): (b: seq<byte>)
    ensures |b| == 4
  {
    var w1 := w / 256;
    var w2 := w1 / 256;
    [w % 256, w1 % 256, w2 % 256, w2 / 256]
  }

  lemma WordOfBytes(w: Word)
    ensures LittleEndian(WordBytes(w)) == w
  {
    LittleEndian4(WordBytes(w));
  }

  /** Two words with the same bytes are the same, and every four bytes are those of a word. */
  lemma BytesOfWord(b: seq<byte>)
    requires |b| == 4
    ensures LittleEndian(b) < M32 && WordBytes(LittleEndian(b)) == b
  {
    LittleEndian4(b);
    var w := LittleEndian(b);
    var w1 := (b[1] as int) + 256 * ((b[2] as int) + 256 * (b[3] as int));
    assert w == b[0] as int + 256 * w1;
    hide LittleEndian;
    assert w / 256 == w1 && w % 256 == b[0] as int;
    assert w1 / 256 == b[2] as int + 256 * (b[3] as int) && w1 % 256 == b[1] as int;
  }

  lemma {:induction false} ShortWord(b: seq<byte>, n: nat)
    requires |b| + n == 4
    ensures LittleEndian(b + seq<byte>(n, _ => 0)) == LittleEndian(b) < M32
  {
    var z := b + seq<byte>(n, _ => 0);
    LittleEndian4(z);
    if |b| == 4 {
      assert z == b;
    } else {
      LittleEndianZeros(b, n);
    }
  }

  lemma {:induction false} LittleEndianZeros(b: seq<byte>, n: nat)
    ensures LittleEndian(b + seq<byte>(n, _ => 0)) == LittleEndian(b)
    decreases |b| + n
  {
    var z := b + seq<byte>(n, _ => 0);
    if |b| > 0 {
      assert z[1..] == b[1..] + seq<byte>(n, _ => 0);
      LittleEndianZeros(b[1..], n);
    } else if n > 0 {
      assert z[1..] == [] + seq<byte>(n - 1, _ => 0);
      LittleEndianZeros([], n - 1);
    }
  }

  /** The word of up to four bytes, the missing ones being 0. */
  function WordOf(b: seq<byte>): Word
    requires |b| <= 4
  {
    ShortWord(b, 4 - |b|);
    LittleEndian(b)
  }

  function BytesOf(ws: seq<Word>): (b: seq<byte>)
    ensures |b| == 4 * |ws|
  {
    if |ws| == 0 then [] else BytesOf(ws[..|ws| - 1]) + WordBytes(ws[|ws| - 1])
  }

  lemma {:induction false} BytesOfAt(ws: seq<Word>, j: nat)
    requires j < |ws|
    ensures BytesOf(ws)[4 * j..4 * j + 4] == WordBytes(ws[j])
  {
    var front := ws[..|ws| - 1];
    if j < |front| {
      BytesOfAt(front, j);
      assert BytesOf(ws)[4 * j..4 * j + 4] == BytesOf(front)[4 * j..4 * j + 4];
    }
  }

  lemma BytesOfNext(ws: seq<Word>, w: Word)
    ensures BytesOf(ws + [w]) == BytesOf(ws) + WordBytes(w)
  {
    assert (ws + [w])[..|ws|] == ws;
  }

  lemma SumNext(ws: seq<Word>, w: Word)
    ensures Sum(ws + [w]) == Wrap(Sum(ws) + w)
  {
    assert (ws + [w])[..|ws|] == ws;
  }

  /** Sum of words, modulo 2^32. */
  function Sum(ws: seq<Word>): Word {
    if |ws| == 0 then 0 else Wrap(Sum(ws[..|ws| - 1]) + ws[|ws| - 1])
  }

  /** Words of an image of `size` bytes. */
  function NumWords(size: nat): nat {
    (size + 3) / 4
  }

  // ---- memory

  function Slot(base: Word, j: nat): Word {
    Wrap(base + 4 * j)
  }

  function Fetched(ram: map<nat, Word>, a: nat): Word {
    if a in ram then ram[a] else 0
  }

  /** The memory after the words `ws` have been stored from `base` on. */
  function Stored(ram: map<nat, Word>, base: Word, ws: seq<Word>): map<nat, Word> {
    if |ws| == 0 then ram
    else Stored(ram, base, ws[..|ws| - 1])[Slot(base, |ws| - 1) := ws[|ws| - 1]]
  }

  function WordsIn(ram: map<nat, Word>, base: Word, n: nat): (ws: seq<Word>)
    ensures |ws| == n
  {
    seq<Word>(n, j requires 0 <= j < n => Fetched(ram, Slot(base, j)))
  }

  lemma StoredNext(ram: map<nat, Word>, base: Word, ws: seq<Word>, w: Word)
    ensures Stored(ram, base, ws + [w]) == Stored(ram, base, ws)[Slot(base, |ws|) := w]
  {
    assert (ws + [w])[..|ws|] == ws;
  }

  lemma SlotsDiffer(base: Word, i: nat, j: nat)
    requires i < j && 4 * j < M32
    ensures Slot(base, i) != Slot(base, j)
  {}

  /** Each word is found where it was stored, and nothing else changes. */
  lemma {:induction false} StoredAt(ram: map<nat, Word>, base: Word, ws: seq<Word>)
    requires 4 * |ws| <= M32
    ensures forall j :: 0 <= j < |ws| ==> Fetched(Stored(ram, base, ws), Slot(base, j)) == ws[j]
    ensures forall a: nat :: (forall j :: 0 <= j < |ws| ==> a != Slot(base, j)) ==>
              Fetched(Stored(ram, base, ws), a) == Fetched(ram, a)
  {
    if |ws| > 0 {
      var n := |ws| - 1;
      StoredAt(ram, base, ws[..n]);
      forall j | 0 <= j < n
        ensures Slot(base, j) != Slot(base, n)
      {
        SlotsDiffer(base, j, n);
      }
      hide Slot;
      forall a: nat | forall j :: 0 <= j < |ws| ==> a != Slot(base, j)
        ensures Fetched(Stored(ram, base, ws), a) == Fetched(ram, a)
      {
        assert a != Slot(base, n);
      }
    }
  }

  // ---- flash

  /** The part of an address that is sent to the flash. */
  function Pin(a: nat): nat {
    a % FLASH_SIZE
  }

  /** The sector of an address. */
  function SectorAt(a: nat): nat {
    Pin(a) / SECTOR_SIZE
  }

  /** A flash cell; cells that do not occur are erased. */
  function Cell(cells: map<nat, byte>, a: nat): byte {
    if Pin(a) in cells then cells[Pin(a)] else 0xFF
  }

  function And8(a: byte, b: byte): byte {
    ((a as bv8) & (b as bv8)) as int
  }

  lemma ProgramErased(b: byte)
    ensures And8(0xFF, b) == b && And8(0, b) == 0
  {}

  lemma ProgramZero(c: byte)
    ensures And8(c, 0) == 0
  {}

  /** Programming can only clear bits. */
  function ProgramCell(cells: map<nat, byte>, a: nat, b: byte): map<nat, byte> {
    cells[Pin(a) := And8(Cell(cells, a), b)]
  }

  function Programmed(cells: map<nat, byte>, addr: nat, bytes: seq<byte>): map<nat, byte> {
    if |bytes| == 0 then cells
    else ProgramCell(Programmed(cells, addr, bytes[..|bytes| - 1]), addr + |bytes| - 1, bytes[|bytes| - 1])
  }

  /** Erasing a sector sets every bit in it. */
  function EraseSector(cells: map<nat, byte>, addr: nat): map<nat, byte> {
    map a | a in cells && SectorAt(a) != SectorAt(addr) :: cells[a]
  }

  /** The flash after erasing `n` sectors from its image address on. */
  function Erased(cells: map<nat, byte>, n: nat): map<nat, byte> {
    if n == 0 then cells else EraseSector(Erased(cells, n - 1), FLASH_BASE + SECTOR_SIZE * (n - 1))
  }

  lemma {:induction false} ProgrammedAppend(cells: map<nat, byte>, addr: nat, x: seq<byte>, y: seq<byte>)
    ensures Programmed(cells, addr, x + y) == Programmed(Programmed(cells, addr, x), addr + |x|, y)
  {
    hide ProgramCell;
    if |y| == 0 {
      assert x + y == x;
    } else {
      assert (x + y)[..|x + y| - 1] == x + y[..|y| - 1];
      ProgrammedAppend(cells, addr, x, y[..|y| - 1]);
    }
  }

  lemma {:induction false} ProgrammedWraps(cells: map<nat, byte>, addr: nat, bytes: seq<byte>)
    ensures Programmed(cells, Wrap(addr), bytes) == Programmed(cells, addr, bytes)
  {
    hide Pin, And8;
    if |bytes| > 0 {
      var n := |bytes| - 1;
      ProgrammedWraps(cells, addr, bytes[..n]);
      SameCell(addr, n);
    }
  }

  lemma SameCell(addr: nat, n: nat)
    ensures Pin(Wrap(addr) + n) == Pin(addr + n)
  {
    var q, r := addr / M32, addr % M32;
    var y, z := (r + n) / FLASH_SIZE, (r + n) % FLASH_SIZE;
    DivModUnique(addr + n, FLASH_SIZE, 256 * q + y, z);
  }

  lemma SectorWraps(addr: nat)
    ensures SectorAt(Wrap(addr)) == SectorAt(addr)
  {
    SameCell(addr, 0);
  }

  lemma CellsDiffer(addr: nat, i: nat, j: nat)
    requires i < j < i + FLASH_SIZE
    ensures Pin(addr + i) != Pin(addr + j)
  {}

  /** `bytes` up to the capacity of the flash each meet one cell; the `m - |bytes|` cells behind them stay. */
  lemma {:induction false} ProgrammedAt(cells: map<nat, byte>, addr: nat, bytes: seq<byte>, m: nat, o: nat)
    requires |bytes| <= m <= FLASH_SIZE && o < m
    ensures Cell(Programmed(cells, addr, bytes), addr + o) ==
            if o < |bytes| then And8(Cell(cells, addr + o), bytes[o]) else Cell(cells, addr + o)
  {
    hide And8, Pin;
    if |bytes| > 0 {
      var n := |bytes| - 1;
      ProgrammedAt(cells, addr, bytes[..n], m, o);
      if o != n {
        CellsDiffer(addr, if o < n then o else n, if o < n then n else o);
      }
    }
  }

  lemma SectorOfOffset(o: nat)
    ensures SectorAt(FLASH_BASE + o) == (64 + o / SECTOR_SIZE) % 256
    ensures SectorAt(Pin(FLASH_BASE + o)) == SectorAt(FLASH_BASE + o)
  {
    var q, r := o / SECTOR_SIZE, o % SECTOR_SIZE;
    var y, z := (64 + q) / 256, (64 + q) % 256;
    DivModUnique(FLASH_BASE + o, FLASH_SIZE, y, SECTOR_SIZE * z + r);
  }

  /** The first `n` sectors from the image address on are erased, and no others. */
  lemma {:induction false} ErasedAt(cells: map<nat, byte>, n: nat, o: nat)
    ensures o < SECTOR_SIZE * n ==> Cell(Erased(cells, n), FLASH_BASE + o) == 0xFF
    ensures SECTOR_SIZE * n <= o < FLASH_SIZE ==> Cell(Erased(cells, n), FLASH_BASE + o) == Cell(cells, FLASH_BASE + o)
  {
    hide SectorAt, Pin;
    if n > 0 {
      ErasedAt(cells, n - 1, o);
      SectorOfOffset(o);
      SectorOfOffset(SECTOR_SIZE * (n - 1));
      assert SECTOR_SIZE * (n - 1) / SECTOR_SIZE == n - 1;
    }
  }

  // ---- an image in the flash

  function HeaderWords(base: Word, size: Word, ws: seq<Word>): (h: seq<Word>)
    ensures |h| == 4
  {
    [SIGNATURE, base, size, M32 - 1 - Sum(ws)]
  }

  /** The header as bytes: "NEO!", base address, size, and what makes the words add up to 2^32 - 1. */
  lemma HeaderBytes(base: Word, size: Word, ws: seq<Word>)
    ensures var h := BytesOf(HeaderWords(base, size, ws));
            && |h| == 16 && h[..4] == [0x4E, 0x45, 0x4F, 0x21]
            && h[4..8] == [base % 256, base / 0x100 % 256, base / 0x10000 % 256, base / 0x1000000]
            && h[8..12] == [size % 256, size / 0x100 % 256, size / 0x10000 % 256, size / 0x1000000]
            && LittleEndian(h[12..16]) == 0xFFFF_FFFF - Sum(ws)
  {
    var all := HeaderWords(base, size, ws);
    hide Sum;
    WordBytesAre(SIGNATURE);
    WordBytesAre(base);
    WordBytesAre(size);
    BytesOfAt(all, 0);
    BytesOfAt(all, 1);
    BytesOfAt(all, 2);
    BytesOfAt(all, 3);
    WordOfBytes(all[3]);
    hide WordBytes, BytesOf;
  }

  lemma WordBytesAre(w: Word)
    ensures WordBytes(w) == [w % 256, w / 0x100 % 256, w / 0x10000 % 256, w / 0x1000000]
  {
    var w1 := w / 256;
    var w2 := w1 / 256;
    DivModUnique(w, 0x10000, w2, 256 * (w1 % 256) + w % 256);
    DivModUnique(w, 0x1000000, w2 / 256, 0x10000 * (w2 % 256) + 256 * (w1 % 256) + w % 256);
  }

  /** A stored image begins at the flash address 0x400000 with these bytes. */
  lemma HeaderInFlash(cells: map<nat, byte>, base: Word, size: Word, ws: seq<Word>, o: nat)
    requires |ws| == NumWords(size) && 16 + 4 * |ws| <= 0x100_0000 && o < 16
    ensures |BytesOf(HeaderWords(base, size, ws))| == 16
    ensures Cell(Flashed(cells, base, size, ws), 0x40_0000 + o) == BytesOf(HeaderWords(base, size, ws))[o]
  {
    FlashedAt(cells, base, size, ws, o);
  }

  /** Sectors erased for an image of `size` bytes. */
  function EraseCount(size: nat): nat {
    size / SECTOR_SIZE + 1
  }

  /** The flash after an image has been stored: data first, then the header in front of it. */
  function Flashed(cells: map<nat, byte>, base: Word, size: Word, ws: seq<Word>): map<nat, byte> {
    Programmed(Programmed(Erased(cells, EraseCount(size)), FLASH_BASE + HEADER_SIZE, BytesOf(ws)),
               FLASH_BASE, BytesOf(HeaderWords(base, size, ws)))
  }

  /** The erased sectors cover the image with its header. */
  predicate Covered(size: nat) {
    HEADER_SIZE + 4 * NumWords(size) <= SECTOR_SIZE * EraseCount(size)
  }

  /** For whole words: unless the last sector has no room for the header. */
  lemma CoveredWhen(size: nat)
    requires size % 4 == 0
    ensures Covered(size) <==> size % SECTOR_SIZE <= SECTOR_SIZE - HEADER_SIZE
  {
    var q, r := size / SECTOR_SIZE, size % SECTOR_SIZE;
    assert size == SECTOR_SIZE * q + r && 4 * NumWords(size) == size;
  }

  /** Data byte `o` is programmed into an erased cell, or into one that can take it. */
  predicate FitsAt(cells: map<nat, byte>, size: nat, data: seq<byte>, o: nat)
    requires o < |data|
  {
    SECTOR_SIZE * EraseCount(size) <= HEADER_SIZE + o ==>
      And8(Cell(cells, FLASH_BASE + HEADER_SIZE + o), data[o]) == data[o]
  }

  predicate Fits(cells: map<nat, byte>, size: nat, data: seq<byte>) {
    forall o :: 0 <= o < |data| ==> FitsAt(cells, size, data, o)
  }

  /** An image fits whatever the flash held exactly when it has no nonzero byte behind the erased sectors. */
  lemma FitsAlways(size: nat, data: seq<byte>)
    requires |data| == 4 * NumWords(size)
    ensures (forall cells :: Fits(cells, size, data)) <==>
            forall o :: 0 <= o < |data| && SECTOR_SIZE * EraseCount(size) <= HEADER_SIZE + o ==> data[o] == 0
    ensures Covered(size) ==> forall cells :: Fits(cells, size, data)
  {
    hide And8, Cell;
    forall o | 0 <= o < |data| && SECTOR_SIZE * EraseCount(size) <= HEADER_SIZE + o
      ensures data[o] != 0 ==> !FitsAt(Spoiled(o), size, data, o)
      ensures data[o] == 0 ==> forall cells :: FitsAt(cells, size, data, o)
    {
      SpoiledCell(o);
      ProgramErased(data[o]);
      forall cells
        ensures data[o] == 0 ==> FitsAt(cells, size, data, o)
      {
        ProgramZero(Cell(cells, FLASH_BASE + HEADER_SIZE + o));
      }
    }
    if forall cells :: Fits(cells, size, data) {
      forall o | 0 <= o < |data| && SECTOR_SIZE * EraseCount(size) <= HEADER_SIZE + o
        ensures data[o] == 0
      {
        assert Fits(Spoiled(o), size, data);
        assert FitsAt(Spoiled(o), size, data, o);
      }
    }
  }

  /** For one, an image of 65532 bytes: two sectors take its header and data, but one is erased. */
  lemma FitsNotAlways(data: seq<byte>)
    requires |data| == 65532 && data[65531] != 0
    ensures !Covered(65532) && !Fits(Spoiled(65531), 65532, data)
  {
    SpoiledCell(65531);
    ProgramErased(data[65531]);
    assert !FitsAt(Spoiled(65531), 65532, data, 65531);
  }

  /** A flash whose only cell that is not erased holds zero, where data byte `o` goes. */
  function Spoiled(o: nat): map<nat, byte> {
    map[Pin(FLASH_BASE + HEADER_SIZE + o) := 0]
  }

  lemma SpoiledCell(o: nat)
    ensures Cell(Spoiled(o), FLASH_BASE + HEADER_SIZE + o) == 0
  {}

  /** What is read back of a stored image: the header, and each data byte unless an old cell spoils it. */
  lemma FlashedAt(cells: map<nat, byte>, base: Word, size: Word, ws: seq<Word>, o: nat)
    requires |ws| == NumWords(size) && HEADER_SIZE + 4 * |ws| <= FLASH_SIZE && o < HEADER_SIZE + 4 * |ws|
    ensures var data := BytesOf(ws);
            Cell(Flashed(cells, base, size, ws), FLASH_BASE + o) ==
            if o < HEADER_SIZE then BytesOf(HeaderWords(base, size, ws))[o]
            else if o < SECTOR_SIZE * EraseCount(size) then data[o - HEADER_SIZE]
            else And8(Cell(cells, FLASH_BASE + o), data[o - HEADER_SIZE])
  {
    hide And8, Cell, Programmed, Erased, BytesOf, Sum, EraseCount;
    var n := EraseCount(size);
    EraseCountPositive(size);
    var erased := Erased(cells, n);
    var data, header := BytesOf(ws), BytesOf(HeaderWords(base, size, ws));
    var a := FLASH_BASE + HEADER_SIZE;
    var stored := Programmed(erased, a, data);
    ErasedAt(cells, n, o);
    ProgrammedAt(stored, FLASH_BASE, header, HEADER_SIZE + 4 * |ws|, o);
    if o < HEADER_SIZE {
      // header cells lie behind the data, around the end of the flash
      BehindData(erased, a, data, FLASH_SIZE - HEADER_SIZE + o);
      SamePin(erased, o);
      SamePin(stored, o);
      ProgramErased(header[o]);
    } else {
      ProgrammedAt(erased, a, data, 4 * |ws|, o - HEADER_SIZE);
      ProgramErased(data[o - HEADER_SIZE]);
    }
  }

  lemma EraseCountPositive(size: nat)
    ensures EraseCount(size) >= 1
  {}

  lemma BehindData(cells: map<nat, byte>, addr: nat, data: seq<byte>, o: nat)
    requires |data| <= o < FLASH_SIZE
    ensures Cell(Programmed(cells, addr, data), addr + o) == Cell(cells, addr + o)
  {
    hide Cell, Programmed;
    ProgrammedAt(cells, addr, data, o + 1, o);
  }

  lemma SamePin(cells: map<nat, byte>, o: nat)
    ensures Cell(cells, FLASH_BASE + HEADER_SIZE + (FLASH_SIZE - HEADER_SIZE + o)) == Cell(cells, FLASH_BASE + o)
  {
    assert Pin(FLASH_BASE + FLASH_SIZE + o) == Pin(FLASH_BASE + o);
  }

  lemma {:induction false} BytesConcat(x: seq<Word>, y: seq<Word>)
    ensures BytesOf(x + y) == BytesOf(x) + BytesOf(y)
  {
    hide WordBytes;
    if |y| == 0 {
      assert x + y == x;
    } else {
      assert (x + y)[..|x + y| - 1] == x + y[..|y| - 1];
      BytesConcat(x, y[..|y| - 1]);
    }
  }

  /** An image, header first. */
  function ImageWords(base: Word, size: Word, ws: seq<Word>): seq<Word> {
    HeaderWords(base, size, ws) + ws
  }

  /** The flash holds the bytes of the words from its image address on. */
  predicate Holds(cells: map<nat, byte>, all: seq<Word>) {
    forall o :: 0 <= o < 4 * |all| ==> Cell(cells, FLASH_BASE + o) == BytesOf(all)[o]
  }

  /** A stored image that is no larger than the flash can be read back exactly if its data fits. */
  lemma HoldsIffFits(cells: map<nat, byte>, base: Word, size: Word, ws: seq<Word>)
    requires |ws| == NumWords(size) && HEADER_SIZE + 4 * |ws| <= FLASH_SIZE
    ensures Holds(Flashed(cells, base, size, ws), ImageWords(base, size, ws)) <==> Fits(cells, size, BytesOf(ws))
  {
    hide Flashed, BytesOf, Cell, HeaderWords, And8;
    var f, all, data := Flashed(cells, base, size, ws), ImageWords(base, size, ws), BytesOf(ws);
    BytesConcat(HeaderWords(base, size, ws), ws);
    EraseCountPositive(size);
    forall o | 0 <= o < 4 * |all|
      ensures Cell(f, FLASH_BASE + o) == BytesOf(all)[o] <==>
              o < HEADER_SIZE || FitsAt(cells, size, data, o - HEADER_SIZE)
    {
      FlashedAt(cells, base, size, ws, o);
    }
    if Holds(f, all) {
      forall o | 0 <= o < |data|
        ensures FitsAt(cells, size, data, o)
      {
        assert Cell(f, FLASH_BASE + (HEADER_SIZE + o)) == BytesOf(all)[HEADER_SIZE + o];
      }
    }
  }

  // ---- the flash below the image address

  const ROOM := FLASH_SIZE - FLASH_BASE

  /** Storing an image leaves all cells below the image address alone, whatever they hold. */
  ghost predicate KeepsBelow(base: Word, size: Word, ws: seq<Word>) {
    forall cells, a: nat :: a < FLASH_BASE ==> Cell(Flashed(cells, base, size, ws), a) == Cell(cells, a)
  }

  /** The bytes of an image that go behind the end of the flash are 0xFF. */
  predicate OnesBehind(data: seq<byte>) {
    forall o :: 0 <= o < |data| && ROOM <= HEADER_SIZE + o ==> data[o] == 0xFF
  }

  /** It does so exactly if no sector is erased behind the end of the flash, and no byte is programmed there
      but 0xFF. */
  lemma BelowIsKept(base: Word, size: Word, ws: seq<Word>)
    requires |ws| == NumWords(size)
    ensures KeepsBelow(base, size, ws) <==>
              SECTOR_SIZE * EraseCount(size) <= ROOM && OnesBehind(BytesOf(ws))
    ensures SECTOR_SIZE * EraseCount(size) <= ROOM && HEADER_SIZE + 4 * |ws| <= ROOM ==> KeepsBelow(base, size, ws)
  {
    hide Flashed, Cell, EraseCount;
    if SECTOR_SIZE * EraseCount(size) <= ROOM {
      RoomSuffices(size);
      if OnesBehind(BytesOf(ws)) {
        forall cells, a: nat | a < FLASH_BASE
          ensures Cell(Flashed(cells, base, size, ws), a) == Cell(cells, a)
        {
          BelowStays(cells, base, size, ws, a);
        }
        assert KeepsBelow(base, size, ws);
      }
      if KeepsBelow(base, size, ws) {
        forall o | 0 <= o < 4 * |ws| && ROOM <= HEADER_SIZE + o
          ensures BytesOf(ws)[o] == 0xFF
        {
          ProgrammedBelow(base, size, ws, o);
        }
      }
    } else {
      ErasedBelow(base, size, ws);
    }
  }

  /** For one, an image of 12 MB: 193 sectors are erased, the last of them at the beginning of the flash. */
  lemma BelowIsNotKept(base: Word, ws: seq<Word>)
    ensures EraseCount(0xC0_0000) == 193 && !KeepsBelow(base, 0xC0_0000, ws)
  {
    hide KeepsBelow;
    ErasedBelow(base, 0xC0_0000, ws);
  }

  lemma RoomSuffices(size: nat)
    ensures SECTOR_SIZE * EraseCount(size) <= ROOM ==> HEADER_SIZE + 4 * NumWords(size) < FLASH_SIZE
  {}

  lemma CellBelow(cells: map<nat, byte>, a: nat)
    ensures Cell(cells, FLASH_BASE + (ROOM + a)) == Cell(cells, a)
  {
    assert Pin(FLASH_SIZE + a) == Pin(a);
  }

  lemma BelowStays(cells: map<nat, byte>, base: Word, size: Word, ws: seq<Word>, a: nat)
    requires |ws| == NumWords(size) && SECTOR_SIZE * EraseCount(size) <= ROOM && a < FLASH_BASE
    requires HEADER_SIZE + 4 * |ws| < FLASH_SIZE
    requires OnesBehind(BytesOf(ws))
    ensures Cell(Flashed(cells, base, size, ws), a) == Cell(cells, a)
  {
    hide Flashed, BytesOf, Cell, EraseCount, And8;
    var o := ROOM + a;
    var f := Flashed(cells, base, size, ws);
    CellBelow(cells, a);
    CellBelow(f, a);
    if o < HEADER_SIZE + 4 * |ws| {
      FlashedAt(cells, base, size, ws, o);
      ProgramOnes(Cell(cells, a));
    } else {
      BehindImage(cells, base, size, ws, o);
    }
  }

  lemma ProgramOnes(c: byte)
    ensures And8(c, 0xFF) == c
  {
    hide And8;
    And8Commutes(c, 0xFF);
    ProgramErased(c);
  }

  lemma And8Commutes(a: byte, b: byte)
    ensures And8(a, b) == And8(b, a)
  {}

  lemma BehindImage(cells: map<nat, byte>, base: Word, size: Word, ws: seq<Word>, o: nat)
    requires SECTOR_SIZE * EraseCount(size) <= o && HEADER_SIZE + 4 * |ws| <= o < FLASH_SIZE
    ensures Cell(Flashed(cells, base, size, ws), FLASH_BASE + o) == Cell(cells, FLASH_BASE + o)
  {
    hide Programmed, Cell, Erased, BytesOf, Sum, EraseCount;
    var erased := Erased(cells, EraseCount(size));
    ErasedAt(cells, EraseCount(size), o);
    BehindData(erased, FLASH_BASE + HEADER_SIZE, BytesOf(ws), o - HEADER_SIZE);
    BehindData(Programmed(erased, FLASH_BASE + HEADER_SIZE, BytesOf(ws)), FLASH_BASE,
               BytesOf(HeaderWords(base, size, ws)), o);
  }

  /** On an erased flash a byte programmed behind its end shows at the beginning. */
  lemma ProgrammedBelow(base: Word, size: Word, ws: seq<Word>, o: nat)
    requires |ws| == NumWords(size) && SECTOR_SIZE * EraseCount(size) <= ROOM && HEADER_SIZE + 4 * |ws| < FLASH_SIZE
    requires o < 4 * |ws| && ROOM <= HEADER_SIZE + o && KeepsBelow(base, size, ws)
    ensures BytesOf(ws)[o] == 0xFF
  {
    hide Flashed, BytesOf, Cell, EraseCount, And8;
    var f := Flashed(map[], base, size, ws);
    var a := HEADER_SIZE + o - ROOM;
    CellBelow(map[], a);
    CellBelow(f, a);
    FlashedAt(map[], base, size, ws, HEADER_SIZE + o);
    NothingWritten(a);
    ProgramErased(BytesOf(ws)[o]);
    assert Cell(f, a) == Cell(map[], a);
  }

  lemma NothingWritten(a: nat)
    ensures Cell(map[], a) == 0xFF
  {}

  /** What programming leaves in a cell depends on that cell alone. */
  lemma {:induction false} CellWise(c: map<nat, byte>, d: map<nat, byte>, addr: nat, bytes: seq<byte>, a: nat)
    requires Cell(c, a) == Cell(d, a)
    ensures Cell(Programmed(c, addr, bytes), a) == Cell(Programmed(d, addr, bytes), a)
  {
    hide And8, Pin;
    if |bytes| > 0 {
      var n := |bytes| - 1;
      CellWise(c, d, addr, bytes[..n], a);
      SameProgram(Programmed(c, addr, bytes[..n]), Programmed(d, addr, bytes[..n]), addr + n, bytes[n], a);
    }
  }

  lemma SameProgram(c: map<nat, byte>, d: map<nat, byte>, x: nat, b: byte, a: nat)
    requires Cell(c, a) == Cell(d, a)
    ensures Cell(ProgramCell(c, x, b), a) == Cell(ProgramCell(d, x, b), a)
  {
    hide And8, Pin;
    if Pin(x) == Pin(a) {
      assert Cell(c, x) == Cell(c, a) && Cell(d, x) == Cell(d, a);
    }
  }

  /** If the sectors erased go beyond the end of the flash, the first cell cannot keep both 0 and 0xFF. */
  lemma ErasedBelow(base: Word, size: Word, ws: seq<Word>)
    requires SECTOR_SIZE * EraseCount(size) > ROOM
    ensures !KeepsBelow(base, size, ws)
  {
    hide Programmed, Cell, Erased, BytesOf, Sum, EraseCount;
    var n := EraseCount(size);
    var c, d: map<nat, byte> := map[], map[0 := 0];
    ErasedAt(c, n, ROOM);
    ErasedAt(d, n, ROOM);
    CellBelow(Erased(c, n), 0);
    CellBelow(Erased(d, n), 0);
    var data, header := BytesOf(ws), BytesOf(HeaderWords(base, size, ws));
    CellWise(Erased(c, n), Erased(d, n), FLASH_BASE + HEADER_SIZE, data, 0);
    CellWise(Programmed(Erased(c, n), FLASH_BASE + HEADER_SIZE, data),
             Programmed(Erased(d, n), FLASH_BASE + HEADER_SIZE, data), FLASH_BASE, header, 0);
    FirstCells();
    if Cell(Flashed(c, base, size, ws), 0) == 0xFF {
      assert Cell(Flashed(d, base, size, ws), 0) != Cell(d, 0);
    } else {
      assert Cell(Flashed(c, base, size, ws), 0) != Cell(c, 0);
    }
  }

  lemma FirstCells()
    ensures Cell(map[], 0) == 0xFF && Cell(map[0 := 0], 0) == 0
  {}
}
