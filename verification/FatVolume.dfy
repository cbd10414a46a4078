/** A mounted FAT volume: the disk, the geometry found at mount time, the FAT and the cluster chains. */
module FatVolume {
  import opened Words

  type byte = x: int | 0 <= x < 256

  type Sector = s: seq<byte> | |s| == 512 witness seq(512, _ => 0)

  /** The readable sectors of a disk; reading any other sector fails. */
  type Disk = map<nat, Sector>

  datatype FsType = FAT12 | FAT16 | FAT32

  /** Read part of a sector into `buff` at `at`. A request never crosses the sector end. */
  method DiskReadp(disk: Disk, buff: array<byte>, at: nat, sector: nat, offset: nat, count: nat) returns (failed: bool)
    requires 1 <= count && offset + count <= 512
    requires at + count <= buff.Length
    modifies buff
    ensures failed <==> sector !in disk
    ensures buff[..at] == old(buff[..at]) && buff[at + count..] == old(buff[at + count..])
    ensures failed ==> buff[..] == old(buff[..])
    ensures !failed ==> buff[at..at + count] == disk[sector][offset..offset + count]
  {
    failed := sector !in disk;
    if !failed {
      forall k | 0 <= k < count {
        buff[at + k] := disk[sector][offset + k];
      }
    }
  }

  /** The same without a buffer: the bytes are forwarded to the outgoing stream. */
  method DiskForward(disk: Disk, sector: nat, offset: nat, count: nat) returns (failed: bool, out: seq<byte>)
    requires 1 <= count && offset + count <= 512
    ensures failed <==> sector !in disk
    ensures out == if failed then [] else disk[sector][offset..offset + count]
  {
    failed, out := sector !in disk, [];
    if !failed {
      for k := 0 to count
        invariant out == disk[sector][offset..offset + k]
      {
        out := out + [disk[sector][offset + k]];
      }
    }
  }

  /** Little-endian number in a byte string. */
  function LittleEndian(bytes: seq<byte>): nat {
    if |bytes| == 0 then 0 else (bytes[0] as int) + 256 * LittleEndian(bytes[1..])
  }

  method LdWord(buf: array<byte>, at: nat) returns (rv: nat)
    requires at + 2 <= buf.Length
    ensures rv == LittleEndian(buf[at..at + 2])
  {
    rv := buf[at + 1];
    rv := rv * 256 + buf[at];
    LittleEndian2(buf[at..at + 2]);
  }

  method LdDword(buf: array<byte>, at: nat) returns (rv: nat)
    requires at + 4 <= buf.Length
    ensures rv == LittleEndian(buf[at..at + 4]) < M32
  {
    rv := buf[at + 3];
    rv := rv * 256 + buf[at + 2];
    rv := rv * 256 + buf[at + 1];
    rv := rv * 256 + buf[at];
    LittleEndian4(buf[at..at + 4]);
  }

  lemma LittleEndian2(s: seq<byte>)
    requires |s| == 2
    ensures LittleEndian(s) == (s[0] as int) + 256 * (s[1] as int)
  {
    assert s[1..][1..] == [];
    assert LittleEndian(s[1..]) == s[1] as int;
  }

  lemma LittleEndian4(s: seq<byte>)
    requires |s| == 4
    ensures LittleEndian(s) == (s[0] as int) + 256 * ((s[1] as int) + 256 * ((s[2] as int) + 256 * (s[3] as int))) < M32
  {
    LittleEndian2(s[2..]);
    assert s[1..][1..] == s[2..];
  }

  // ---- bit masks

  predicate Pow2(n: nat)
  {
    n == 1 || (n > 1 && n % 2 == 0 && Pow2(n / 2))
  }

  /** Bitwise and of two unsigned numbers. */
  function BitAnd(x: nat, y: nat): nat {
    if x == 0 || y == 0 then 0
    else 2 * BitAnd(x / 2, y / 2) + (if x % 2 == 1 && y % 2 == 1 then 1 else 0)
  }

  function Mod(x: nat, n: nat): nat
    requires n > 0
  {
    x % n
  }

  /** Masking with `n - 1` is the remainder modulo a power of two. */
  lemma {:induction false} MaskIsModulo(x: nat, n: nat)
    requires Pow2(n)
    ensures BitAnd(x, n - 1) == Mod(x, n)
  {
    if n > 1 {
      hide Mod, BitAnd;
      var m := n / 2;
      MaskIsModulo(x / 2, m);
      BitAndOdd(x, m - 1);
      HalfModulo(x, m);
    }
  }

  /** A mask of one bit selects that bit. */
  lemma {:induction false} BitAndPow2(x: nat, n: nat)
    requires Pow2(n)
    ensures BitAnd(x, n) == if x / n % 2 == 1 then n else 0
  {
    if n > 1 {
      BitAndPow2(x / 2, n / 2);
      HalfModulo(x, n / 2);
    } else {
      assert BitAnd(x / 2, 0) == 0;
    }
  }

  /** Bitwise and with the complement of `m`. */
  function AndNot(x: nat, m: nat): nat {
    if x == 0 then 0 else 2 * AndNot(x / 2, m / 2) + (if x % 2 == 1 && m % 2 == 0 then 1 else 0)
  }

  lemma AndNotClears(x: nat, m: nat)
    ensures AndNot(x, m) + BitAnd(x, m) == x
  {
    if m == 0 && x > 0 {
      AndNotClears(x / 2, 0);
    }
  }

  lemma BitAndOdd(x: nat, y: nat)
    ensures BitAnd(x, 2 * y + 1) == 2 * BitAnd(x / 2, y) + x % 2
  {
    assert (2 * y + 1) / 2 == y && (2 * y + 1) % 2 == 1;
  }

  lemma HalfModulo(x: nat, m: nat)
    requires m > 0
    ensures Mod(x, 2 * m) == 2 * Mod(x / 2, m) + x % 2
    ensures x / (2 * m) == x / 2 / m
  {
    var q := x / 2 / m;
    assert x / 2 == m * q + x / 2 % m;
    assert 2 * (m * q) == 2 * m * q;
    DivModUnique(x, 2 * m, q, 2 * (x / 2 % m) + x % 2);
  }

  // ---- geometry and FAT

  lemma Multiples(i: nat, j: nat, m: nat)
    requires i < j
    ensures i * m + m == (i + 1) * m <= j * m
  {
    var d: nat := j - i - 1;
    assert j * m == (i + 1) * m + d * m;
  }

  /** Cast to an 8-bit unsigned value. */
  function ToByte(x: nat): byte {
    x % 256
  }

  /** `c - 2` in 32-bit unsigned arithmetic. */
  function Less2(c: nat): int {
    if c >= 2 then c - 2 else M32 + c - 2
  }

  datatype Volume = Volume(disk: Disk, fsType: FsType, csize: nat, nRootdir: nat, nFatent: nat,
                           fatbase: nat, dirbase: nat, database: nat)
  {
    /** Geometry as `PfMount` finds it on a consistent disk: power-of-two clusters, addressable data area. */
    ghost predicate Sound() {
      && Pow2(csize) && 1 <= csize <= 128
      && 2 <= nFatent < M32
      && 0 < database && DataEnd() <= M32
    }

    /** The root directory has 32-bit sector numbers. */
    ghost predicate RootAddressable() {
      dirbase < M32 && (!fsType.FAT32? || dirbase == 0 ==> dirbase + nRootdir / 16 < M32)
    }

    /** The sector after the data area. */
    function DataEnd(): int {
      database + Span(nFatent - 2)
    }

    /** Sectors taken by `i` clusters. */
    function Span(i: int): (n: int)
      ensures i >= 0 ==> n >= 0
    {
      i * csize
    }

    lemma SpanMonotone(i: nat, j: nat)
      requires i < j
      ensures Span(i) + csize == Span(i + 1) <= Span(j)
    {
      Multiples(i, j, csize);
    }

    /** Cluster size in bytes. */
    function Bcs(): nat {
      512 * csize
    }

    predicate ValidClust(c: nat) {
      2 <= c < nFatent
    }

    /** First sector of a cluster; 0 for an invalid cluster number. */
    function Clust2Sect(c: nat): nat
      requires c < M32
    {
      if Less2(c) >= Less2(nFatent) then 0 else Wrap(Span(Less2(c)) + database)
    }

    ghost predicate FatReadable(i: nat) {
      (fatbase + i / 512) % M32 in disk
    }

    /** Byte `i` of the FAT area (0 if unreadable). */
    ghost function FatByte(i: nat): byte {
      if FatReadable(i) then disk[(fatbase + i / 512) % M32][i % 512] else 0
    }

    /** Nibble `i` of the FAT area, low nibble of each byte first. */
    ghost function Nibble(i: nat): nat {
      if i % 2 == 0 then FatByte(i / 2) % 16 else FatByte(i / 2) / 16
    }

    /** The number written in `n` consecutive nibbles, least significant first. */
    ghost function Nibbles(i: nat, n: nat): nat
      decreases n
    {
      if n == 0 then 0 else Nibble(i) + 16 * Nibbles(i + 1, n - 1)
    }

    /** Nibbles from one FAT entry to the next. */
    function EntryStride(): nat {
      Stride(fsType)
    }

    /** Nibbles of a FAT entry that carry the link; the top four bits of a FAT32 entry are reserved. */
    function EntryDigits(): nat {
      match fsType case FAT12 => 3 case FAT16 => 4 case FAT32 => 7
    }

    ghost predicate EntryReadable(n: nat) {
      var first, last := EntryStride() * n, EntryStride() * n + EntryDigits() - 1;
      forall b: nat :: first / 2 <= b <= last / 2 ==> FatReadable(b)
    }

    /** The link stored for cluster `n`; 1 when there is none (invalid cluster or unreadable FAT). */
    ghost function Link(n: nat): nat {
      if ValidClust(n) && EntryReadable(n) then Nibbles(EntryStride() * n, EntryDigits()) else 1
    }

    /** A byte-aligned run of nibbles starts with a whole byte. */
    lemma ByteNibbles(i: nat, n: nat)
      ensures Nibbles(2 * i, n + 2) == (FatByte(i) as int) + 256 * Nibbles(2 * i + 2, n)
    {
      assert 2 * i / 2 == i && (2 * i + 1) / 2 == i;
      assert Nibbles(2 * i, n + 2) == Nibble(2 * i) + 16 * Nibbles(2 * i + 1, n + 1);
      assert Nibbles(2 * i + 1, n + 1) == Nibble(2 * i + 1) + 16 * Nibbles(2 * i + 2, n);
    }

    lemma OneNibble(i: nat)
      ensures Nibbles(2 * i, 1) == FatByte(i) as int % 16
    {
      assert 2 * i / 2 == i;
      assert Nibbles(2 * i, 1) == Nibble(2 * i) + 16 * Nibbles(2 * i + 1, 0);
    }

    lemma Entry12(n: nat, bc: nat)
      requires fsType == FAT12 && bc == n + n / 2
      ensures EntryReadable(n) <==> FatReadable(bc) && FatReadable(bc + 1)
      ensures var wc: int := (FatByte(bc) as int) + 256 * (FatByte(bc + 1) as int);
              Nibbles(3 * n, 3) == if n % 2 == 1 then wc / 16 else wc % 0x1000
    {
      hide FatReadable, FatByte, Nibbles;
      assert bc == 3 * n / 2 && bc + 1 == (3 * n + 2) / 2;
      if n % 2 == 0 {
        EvenEntry12(n / 2);
      } else {
        OddEntry12(n / 2);
      }
    }

    lemma EvenEntry12(m: nat)
      ensures Nibbles(6 * m, 3) == ((FatByte(3 * m) as int) + 256 * (FatByte(3 * m + 1) as int)) % 0x1000
    {
      hide FatReadable, FatByte, Nibble, Nibbles;
      ByteNibbles(3 * m, 1);
      OneNibble(3 * m + 1);
    }

    lemma OddEntry12(m: nat)
      ensures Nibbles(6 * m + 3, 3) == ((FatByte(3 * m + 1) as int) + 256 * (FatByte(3 * m + 2) as int)) / 16
    {
      hide FatReadable, FatByte;
      assert (6 * m + 3) / 2 == 3 * m + 1;
      assert Nibbles(6 * m + 3, 3) == Nibble(6 * m + 3) + 16 * Nibbles(2 * (3 * m + 2), 2);
      ByteNibbles(3 * m + 2, 0);
      assert Nibbles(6 * m + 6, 0) == 0;
    }

    lemma Entry16(n: nat)
      requires fsType == FAT16
      ensures EntryReadable(n) <==> FatReadable(2 * n)
      ensures Nibbles(4 * n, 4) == (FatByte(2 * n) as int) + 256 * (FatByte(2 * n + 1) as int)
    {
      hide FatByte, Nibble, FatReadable, Nibbles, EntryReadable;
      Readable16(n);
      ByteNibbles(2 * n, 2);
      ByteNibbles(2 * n + 1, 0);
      assert 4 * n == 2 * (2 * n) && Nibbles(4 * n + 4, 0) == 0 by { NoNibbles(4 * n + 4); }
    }

    lemma NoNibbles(i: nat)
      ensures Nibbles(i, 0) == 0
    {}

    /** Nearby FAT bytes lie in the same sector. */
    lemma ReadableNear(i: nat, k: nat)
      requires i % 512 + k < 512
      ensures FatReadable(i + k) == FatReadable(i)
      ensures FatReadable(i) ==> FatByte(i + k) == disk[(fatbase + i / 512) % M32][i % 512 + k]
    {
      SameSector(i, k);
    }

    lemma Readable16(n: nat)
      requires fsType == FAT16
      ensures EntryReadable(n) <==> FatReadable(2 * n)
    {
      hide FatReadable;
      AlignedBytes(n);
      ReadableNear(2 * n, 1);
      assert 4 * n / 2 == 2 * n && (4 * n + 3) / 2 == 2 * n + 1;
    }

    lemma Entry32(n: nat)
      requires fsType == FAT32
      ensures EntryReadable(n) <==> FatReadable(4 * n)
      ensures Nibbles(8 * n, 7) ==
              (FatByte(4 * n) as int) + 256 * ((FatByte(4 * n + 1) as int)
                + 256 * ((FatByte(4 * n + 2) as int) + 256 * (FatByte(4 * n + 3) as int % 16)))
    {
      hide FatByte, Nibble, FatReadable, Nibbles, EntryReadable;
      Readable32(n);
      ByteNibbles(4 * n, 5);
      ByteNibbles(4 * n + 1, 3);
      ByteNibbles(4 * n + 2, 1);
      OneNibble(4 * n + 3);
    }

    lemma Readable32(n: nat)
      requires fsType == FAT32
      ensures EntryReadable(n) <==> FatReadable(4 * n)
    {
      hide FatReadable;
      AlignedBytes(n);
      ReadableNear(4 * n, 1);
      ReadableNear(4 * n, 2);
      ReadableNear(4 * n, 3);
      assert 8 * n / 2 == 4 * n && (8 * n + 6) / 2 == 4 * n + 3;
    }

    ghost function FatBytes(i: nat, n: nat): (s: seq<byte>)
      ensures |s| == n
    {
      seq<byte>(n, k requires 0 <= k < n => FatByte(i + k))
    }

    /** Fetch FAT bytes `i..i + count` that lie in one sector. */
    method FetchFat(buf: array<byte>, at: nat, ghost i: nat, sector: nat, ofs: nat, count: nat) returns (failed: bool)
      requires sector == fatbase + i / 512 && ofs == i % 512 && 1 <= count && ofs + count <= 512
      requires at + count <= buf.Length
      modifies buf
      ensures failed <==> !FatReadable(i)
      ensures !failed ==> buf[at..at + count] == FatBytes(i, count)
      ensures buf[..at] == old(buf[..at])
    {
      failed := DiskReadp(disk, buf, at, sector % M32, ofs, count);
      if !failed {
        forall k | 0 <= k < count
          ensures buf[at..at + count][k] == FatBytes(i, count)[k]
        {
          ReadableNear(i, k);
        }
      }
    }

    method GetFat12(clst: nat) returns (failed: bool, link: nat)
      requires fsType == FAT12
      ensures failed <==> !EntryReadable(clst)
      ensures !failed ==> link == Nibbles(3 * clst, 3) < M32
    {
      hide FatReadable, FatByte, Nibbles, EntryReadable;
      var buf := new byte[4];
      link := 1;
      var bc := clst + clst / 2;
      ghost var i := bc;
      Entry12(clst, i);
      var ofs := bc % 512;
      bc := bc / 512;
      if ofs != 511 {
        ReadableNear(i, 1);
        failed := FetchFat(buf, 0, i, fatbase + bc, ofs, 2);
        if failed { return; }
      } else {
        failed := FetchFat(buf, 0, i, fatbase + bc, 511, 1);
        if failed { return; }
        ghost var low := buf[..1];
        NextSector(i);
        failed := FetchFat(buf, 1, i + 1, fatbase + bc + 1, 0, 1);
        if failed { return; }
        assert buf[0..2] == low + buf[1..2];
        assert FatBytes(i, 2) == FatBytes(i, 1) + FatBytes(i + 1, 1);
      }
      var wc := LdWord(buf, 0);
      LittleEndian2(FatBytes(i, 2));
      link := if clst % 2 == 1 then wc / 16 else wc % 0x1000;
    }

    method GetFat16(clst: nat) returns (failed: bool, link: nat)
      requires fsType == FAT16
      ensures failed <==> !EntryReadable(clst)
      ensures !failed ==> link == Nibbles(4 * clst, 4) < M32
    {
      hide FatReadable, FatByte, Nibbles, EntryReadable;
      var buf := new byte[4];
      link := 1;
      Entry16(clst);
      AlignedBytes(clst);
      failed := FetchFat(buf, 0, 2 * clst, fatbase + clst / 256, clst % 256 * 2, 2);
      if failed { return; }
      link := LdWord(buf, 0);
      LittleEndian2(FatBytes(2 * clst, 2));
    }

    method GetFat32(clst: nat) returns (failed: bool, link: nat)
      requires fsType == FAT32
      ensures failed <==> !EntryReadable(clst)
      ensures !failed ==> link == Nibbles(8 * clst, 7) < M32
    {
      hide FatReadable, FatByte, Nibbles, EntryReadable;
      var buf := new byte[4];
      link := 1;
      Entry32(clst);
      AlignedBytes(clst);
      failed := FetchFat(buf, 0, 4 * clst, fatbase + clst / 128, clst % 128 * 4, 4);
      if failed { return; }
      var dword := LdDword(buf, 0);
      DropTopNibble(FatBytes(4 * clst, 4));
      link := dword % 0x1000_0000;
    }

    /** The link of a cluster, read from a 12-, 16- or 32-bit table. */
    method GetFat(clst: nat) returns (link: nat)
      ensures link == Link(clst) < M32
    {
      hide EntryReadable, Nibbles;
      if clst < 2 || clst >= nFatent {
        return 1;
      }
      var failed;
      match fsType {
        case FAT12 => failed, link := GetFat12(clst);
        case FAT16 => failed, link := GetFat16(clst);
        case FAT32 => failed, link := GetFat32(clst);
      }
      if failed {
        link := 1;
      }
    }
  }

  /** Nibbles of a FAT entry. */
  function Stride(fsType: FsType): nat {
    match fsType case FAT12 => 3 case FAT16 => 4 case FAT32 => 8
  }

  lemma SameSector(i: nat, k: nat)
    requires i % 512 + k < 512
    ensures (i + k) / 512 == i / 512 && (i + k) % 512 == i % 512 + k
  {}

  lemma NextSector(i: nat)
    requires i % 512 == 511
    ensures (i + 1) / 512 == i / 512 + 1 && (i + 1) % 512 == 0
  {}

  lemma AlignedBytes(n: nat)
    ensures 2 * n % 512 + 1 < 512 && 4 * n % 512 + 3 < 512
    ensures 2 * n / 512 == n / 256 && 2 * n % 512 == n % 256 * 2
    ensures 4 * n / 512 == n / 128 && 4 * n % 512 == n % 128 * 4
  {
    DivModUnique(2 * n, 512, n / 256, 2 * (n % 256));
    DivModUnique(4 * n, 512, n / 128, 4 * (n % 128));
  }

  lemma DropTopNibble(s: seq<byte>)
    requires |s| == 4
    ensures LittleEndian(s) % 0x1000_0000 ==
            (s[0] as int) + 256 * ((s[1] as int) + 256 * ((s[2] as int) + 256 * (s[3] as int % 16)))
  {
    LittleEndian4(s);
    var b0: int, b1: int, b2: int, b3: int := s[0], s[1], s[2], s[3];
    var r := b0 + 256 * (b1 + 256 * (b2 + 256 * (b3 % 16)));
    assert LittleEndian(s) == r + 0x1000_0000 * (b3 / 16);
  }
}
