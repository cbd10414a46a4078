/** Mounting: finding the boot sector and deriving the volume geometry from its parameter block. */
module FatMount {
  import opened Words
  import opened FatVolume
  import opened FatFile

  /** The BIOS parameter block, as far as it is used. */
  datatype Bpb = Bpb(secPerClus: nat, rsvd: nat, numFats: nat, rootEnt: nat, totSec: nat, fatSz: nat, rootClus: nat) {

    /** Sectors of all FATs. */
    function FatSectors(): nat {
      numFats * fatSz
    }

    /** Sectors before the data area. */
    function MetaSectors(): nat {
      rsvd + FatSectors() + rootEnt / 16
    }

    /** The parts fit into the volume, and the volume into 32-bit sector numbers. */
    predicate Consistent(bsect: nat) {
      && Pow2(secPerClus) && secPerClus <= 128 && 0 < rsvd && 0 < numFats && 0 < fatSz
      && MetaSectors() <= totSec && bsect + totSec < M32 && rootClus < M32 && rootEnt < 0x10000
    }

    function Clusters(): nat
      requires secPerClus > 0 && MetaSectors() <= totSec
    {
      (totSec - MetaSectors()) / secPerClus
    }

    /** Each FAT has an entry for every cluster; a sector of it holds 1024 nibbles. */
    predicate FatsSuffice()
      requires secPerClus > 0 && MetaSectors() <= totSec
    {
      Stride(SpecifiedType(Clusters())) * (Clusters() + 2) <= 1024 * fatSz
    }
  }

  function Field(s: Sector, at: nat, n: nat): nat
    requires at + n <= 512
  {
    LittleEndian(s[at..at + n])
  }

  function BpbOf(s: Sector): Bpb {
    Bpb(s[13], Field(s, 14, 2), s[16], Field(s, 17, 2),
        if Field(s, 19, 2) != 0 then Field(s, 19, 2) else Field(s, 32, 4),
        if Field(s, 22, 2) != 0 then Field(s, 22, 2) else Field(s, 36, 4),
        Field(s, 44, 4))
  }

  lemma FieldBytes(s: Sector, at: nat)
    requires at + 4 <= 512
    ensures Field(s, at, 2) == (s[at] as int) + 0x100 * (s[at + 1] as int)
    ensures Field(s, at, 4) ==
            (s[at] as int) + 0x100 * (s[at + 1] as int) + 0x10000 * (s[at + 2] as int) + 0x1000000 * (s[at + 3] as int)
  {
    LittleEndian2(s[at..at + 2]);
    LittleEndian4(s[at..at + 4]);
  }

  /** The parameter block in the single bytes of its sector. */
  lemma BpbBytes(s: Sector)
    ensures var b := BpbOf(s);
            && b.secPerClus == s[13] && b.numFats == s[16]
            && b.rsvd == (s[14] as int) + 0x100 * (s[15] as int)
            && b.rootEnt == (s[17] as int) + 0x100 * (s[18] as int)
            && b.totSec == (if s[19] == 0 == s[20] then
                              (s[32] as int) + 0x100 * (s[33] as int) + 0x10000 * (s[34] as int)
                              + 0x1000000 * (s[35] as int)
                            else (s[19] as int) + 0x100 * (s[20] as int))
            && b.fatSz == (if s[22] == 0 == s[23] then
                             (s[36] as int) + 0x100 * (s[37] as int) + 0x10000 * (s[38] as int)
                             + 0x1000000 * (s[39] as int)
                           else (s[22] as int) + 0x100 * (s[23] as int))
            && b.rootClus == (s[44] as int) + 0x100 * (s[45] as int) + 0x10000 * (s[46] as int)
                             + 0x1000000 * (s[47] as int)
  {
    FieldBytes(s, 14); FieldBytes(s, 17); FieldBytes(s, 19); FieldBytes(s, 22);
    FieldBytes(s, 32); FieldBytes(s, 36); FieldBytes(s, 44);
    hide Field;
  }

  datatype Kind = FatRecord | OtherBoot | NoBoot | Unreadable

  function SectorKind(disk: Disk, sect: nat): Kind {
    if sect !in disk then Unreadable
    else if Field(disk[sect], 510, 2) != 0xAA55 then NoBoot
    else if Field(disk[sect], 54, 2) == 0x4146 || Field(disk[sect], 82, 2) == 0x4146 then FatRecord
    else OtherBoot
  }

  /** Kind and number of the sector to mount from: sector 0, or the first partition of its table. */
  function BootSector(disk: Disk): (Kind, nat) {
    if SectorKind(disk, 0) == OtherBoot && disk[0][450] != 0 then
      (SectorKind(disk, Field(disk[0], 454, 4)), Field(disk[0], 454, 4))
    else (SectorKind(disk, 0), 0)
  }

  /** What is looked at to tell a FAT volume: the signature 0x55 0xAA and "FA" at 54 or at 82. */
  lemma KindMeans(disk: Disk, sect: nat)
    ensures SectorKind(disk, sect) == Unreadable <==> sect !in disk
    ensures sect in disk ==>
              var s := disk[sect];
              SectorKind(disk, sect) ==
              if s[510] != 0x55 || s[511] != 0xAA then NoBoot
              else if (s[54] == 0x46 && s[55] == 0x41) || (s[82] == 0x46 && s[83] == 0x41) then FatRecord
              else OtherBoot
  {
    if sect in disk {
      var s := disk[sect];
      LittleEndian2(s[510..512]);
      FieldBytes(s, 54);
      FieldBytes(s, 82);
    }
  }

  /** Sector 0 itself, unless it has a signature but no FAT volume, and a partition of a type other than 0:
      then the sector where the partition starts. */
  lemma BootSectorMeans(disk: Disk)
    ensures BootSector(disk).0 == SectorKind(disk, BootSector(disk).1)
    ensures BootSector(disk).1 ==
            if SectorKind(disk, 0) == OtherBoot && disk[0][450] != 0x00 then
              var s := disk[0];
              (s[454] as int) + 0x100 * (s[455] as int) + 0x10000 * (s[456] as int) + 0x1000000 * (s[457] as int)
            else 0
  {
    if 0 in disk {
      FieldBytes(disk[0], 454);
    }
    hide Field;
  }

  method CheckFs(disk: Disk, buf: array<byte>, sect: nat) returns (kind: Kind)
    requires buf.Length == 36
    modifies buf
    ensures kind == SectorKind(disk, sect)
  {
    var failed := DiskReadp(disk, buf, 0, sect, 510, 2);
    if failed { return Unreadable; }
    var word := LdWord(buf, 0);
    if word != 0xAA55 { return NoBoot; }
    failed := DiskReadp(disk, buf, 0, sect, 54, 2);
    word := LdWord(buf, 0);
    if !failed && word == 0x4146 { return FatRecord; }
    failed := DiskReadp(disk, buf, 0, sect, 82, 2);
    word := LdWord(buf, 0);
    if !failed && word == 0x4146 { return FatRecord; }
    return OtherBoot;
  }

  /** Unsigned division as the RISC-V `divu` instruction performs it. */
  function DivU(x: nat, y: nat): nat {
    if y == 0 then M32 - 1 else x / y
  }

  /** FAT type by number of clusters (FAT type determination of the Microsoft FAT32 File System
      Specification). */
  function SpecifiedType(clusters: nat): FsType {
    if clusters < 4085 then FAT12 else if clusters < 65525 then FAT16 else FAT32
  }

  /** The geometry of a consistent volume. */
  function Geometry(disk: Disk, b: Bpb, bsect: nat): Volume
    requires b.Consistent(bsect)
  {
    var fsType := SpecifiedType(b.Clusters());
    var fatbase := bsect + b.rsvd;
    Volume(disk, fsType, b.secPerClus, b.rootEnt, b.Clusters() + 2, fatbase,
           if fsType.FAT32? then b.rootClus else fatbase + b.FatSectors(), bsect + b.MetaSectors())
  }

  /** The bounds between the types. */
  lemma TypeBounds(clusters: nat)
    ensures SpecifiedType(clusters) == FAT12 <==> clusters <= 4084
    ensures SpecifiedType(clusters) == FAT32 <==> clusters >= 65525
  {}

  /** Load the parameter block of sector `bsect`, whose bytes from 13 on are in `buf`. */
  method LoadBpb(buf: array<byte>, ghost s: Sector) returns (b: Bpb)
    requires buf.Length == 36 && buf[..] == s[13..49]
    ensures b == BpbOf(s)
  {
    hide LittleEndian;
    SliceOf(s, buf, 14, 2); SliceOf(s, buf, 17, 2); SliceOf(s, buf, 19, 2); SliceOf(s, buf, 22, 2);
    SliceOf(s, buf, 32, 4); SliceOf(s, buf, 36, 4); SliceOf(s, buf, 44, 4);
    assert buf[..][0] == s[13] && buf[..][3] == s[16];
    var fatSz := LdWord(buf, 22 - 13);
    if fatSz == 0 {
      fatSz := LdDword(buf, 36 - 13);
    }
    var rsvd := LdWord(buf, 14 - 13);
    var rootEnt := LdWord(buf, 17 - 13);
    var totSec := LdWord(buf, 19 - 13);
    if totSec == 0 {
      totSec := LdDword(buf, 32 - 13);
    }
    var rootClus := LdDword(buf, 44 - 13);
    b := Bpb(buf[0], rsvd, buf[16 - 13], rootEnt, totSec, fatSz, rootClus);
  }

  lemma RootFits(s: Sector)
    ensures BpbOf(s).rootClus < M32
  {
    LittleEndian4(s[44..48]);
  }

  lemma SliceOf(s: Sector, buf: array<byte>, i: nat, n: nat)
    requires buf.Length == 36 && buf[..] == s[13..49] && 13 <= i && i + n <= 49
    ensures LittleEndian(buf[i - 13..i - 13 + n]) == Field(s, i, n)
  {
    assert buf[i - 13..i - 13 + n] == buf[..][i - 13..i - 13 + n];
    SliceOfSlice(s, 13, 49, i - 13, n);
  }

  lemma SliceOfSlice<T>(s: seq<T>, a: nat, b: nat, i: nat, n: nat)
    requires a <= b <= |s| && i + n <= b - a
    ensures s[a..b][i..i + n] == s[a + i..a + i + n]
  {
    var l, r := s[a..b][i..i + n], s[a + i..a + i + n];
    assert forall k :: 0 <= k < n ==> l[k] == r[k];
  }

  method FindBoot(disk: Disk, buf: array<byte>) returns (kind: Kind, bsect: nat)
    requires buf.Length == 36
    modifies buf
    ensures (kind, bsect) == BootSector(disk)
  {
    bsect := 0;
    kind := CheckFs(disk, buf, bsect);
    if kind == OtherBoot {
      var failed := DiskReadp(disk, buf, 0, bsect, 446, 16);
      if failed {
        kind := Unreadable;
      } else {
        assert buf[4] == buf[0..16][4] == disk[0][450];
        SliceOfSlice(buf[..], 0, 16, 8, 4);
        SliceOfSlice(disk[0], 446, 462, 8, 4);
        assert buf[8..12] == buf[..][0..16][8..12] == disk[0][454..458];
        if buf[4] != 0 {
          bsect := LdDword(buf, 8);
          kind := CheckFs(disk, buf, bsect);
        }
      }
    }
  }

  /** Mount the volume on `disk` with the geometry that wrapping arithmetic finds. For a consistent volume it
      is the true one, except that a volume of exactly 4085 clusters is turned away. */
  method PfMount(fs: FatFs, disk: Disk, ready: bool) returns (res: FResult)
    requires fs.Shape()
    modifies fs`mounted, fs`vol, fs`isOpen
    ensures fs.Shape() && (fs.mounted <==> res == Ok)
    ensures res == Ok ==> fs.vol.dirbase < M32
    ensures !ready ==> res == NotReady
    ensures ready && BootSector(disk).0 == Unreadable ==> res == DiskErr
    ensures ready && BootSector(disk).0 in {OtherBoot, NoBoot} ==> res == NoFilesystem
    ensures ready && BootSector(disk).0 == FatRecord ==>
              var bsect := BootSector(disk).1;
              var b := BpbOf(disk[bsect]);
              && (if WrappedEntries(b) == 4087 then res == NoFilesystem
                  else res == Ok && fs.vol == WrappedGeometry(disk, b, bsect) && !fs.isOpen && fs.Valid())
              && (b.Consistent(bsect) ==> (res == Ok <==> b.Clusters() != 4085))
              && (b.Consistent(bsect) && res == Ok ==> fs.vol == Geometry(disk, b, bsect))
  {
    hide BpbOf, WrappedGeometry, WrappedEntries, Geometry, Pow2;
    fs.mounted := false;
    if !ready {
      return NotReady;
    }
    var buf := new byte[36];
    var kind, bsect := FindBoot(disk, buf);
    if kind == Unreadable { return DiskErr; }
    if kind != FatRecord { return NoFilesystem; }
    var failed := DiskReadp(disk, buf, 0, bsect, 13, 36);
    if failed { return DiskErr; }
    assert buf[..] == buf[0..36];
    var b := LoadBpb(buf, disk[bsect]);
    RootFits(disk[bsect]);
    var known, vol := Layout(disk, b, bsect);
    if b.Consistent(bsect) {
      WrappedIsTrue(disk, b, bsect);
    }
    if !known { return NoFilesystem; }
    fs.vol := vol;
    fs.isOpen := false;
    fs.mounted := true;
    return Ok;
  }

  /** Number of clusters plus 2, as 32-bit arithmetic finds it from any block. */
  function WrappedEntries(b: Bpb): Word {
    Wrap(DivU(Wrap(b.totSec - b.rsvd - Wrap(b.fatSz * b.numFats) - b.rootEnt / 16), b.secPerClus) + 2)
  }

  /** The geometry that 32-bit arithmetic finds from any block, consistent or not. */
  function WrappedGeometry(disk: Disk, b: Bpb, bsect: nat): Volume {
    var fatbase := Wrap(bsect + b.rsvd);
    var fatSectors := Wrap(b.fatSz * b.numFats);
    var fsType := if WrappedEntries(b) < 0xFF7 then FAT12 else if WrappedEntries(b) < 0xFFF7 then FAT16 else FAT32;
    Volume(disk, fsType, b.secPerClus, b.rootEnt, WrappedEntries(b), fatbase,
           if fsType.FAT32? then b.rootClus else Wrap(fatbase + fatSectors),
           Wrap(fatbase + fatSectors + b.rootEnt / 16))
  }

  /** On a consistent block that is the true geometry. */
  lemma WrappedIsTrue(disk: Disk, b: Bpb, bsect: nat)
    requires b.Consistent(bsect)
    ensures WrappedEntries(b) == b.Clusters() + 2 && WrappedGeometry(disk, b, bsect) == Geometry(disk, b, bsect)
  {
    hide Wrap, DivU, Pow2;
    MountArithmetic(b, bsect);
  }

  /** A FAT16 volume in numbers, with a root table of 512 entries in 32 sectors; and a block without a cluster
      size, which makes a volume without clusters. */
  lemma KnownGeometry(disk: Disk, b: Bpb)
    ensures WrappedGeometry(disk, Bpb(4, 1, 2, 512, 40000, 40, 7), 63) ==
            Volume(disk, FAT16, 4, 512, 9973, 64, 144, 176)
    ensures b.secPerClus == 0 ==> WrappedEntries(b) == 1
  {}

  /** Volumes of exactly 4085 clusters are turned away. */
  method Layout(disk: Disk, b: Bpb, bsect: nat) returns (known: bool, vol: Volume)
    ensures known <==> WrappedEntries(b) != 4087
    ensures known ==> vol == WrappedGeometry(disk, b, bsect) && (b.rootClus < M32 ==> vol.dirbase < M32)
  {
    hide Wrap, DivU;
    var fatSectors := Wrap(b.fatSz * b.numFats);
    var fatbase := Wrap(bsect + b.rsvd);
    var mclst := Wrap(DivU(Wrap(b.totSec - b.rsvd - fatSectors - b.rootEnt / 16), b.secPerClus) + 2);
    known := true;
    var fsType := FAT12;
    if mclst < 0xFF7 {
      fsType := FAT12;
    } else if 0xFF8 <= mclst < 0xFFF7 {
      fsType := FAT16;
    } else if mclst >= 0xFFF7 {
      fsType := FAT32;
    } else {
      known := false;
    }
    vol := Volume(disk, fsType, b.secPerClus, b.rootEnt, mclst, fatbase,
                  if fsType.FAT32? then b.rootClus else Wrap(fatbase + fatSectors),
                  Wrap(fatbase + fatSectors + b.rootEnt / 16));
  }

  /** On a consistent volume nothing wraps. */
  lemma MountArithmetic(b: Bpb, bsect: nat)
    requires b.Consistent(bsect)
    ensures b.secPerClus > 0
    ensures var fatSectors := b.FatSectors();
            && Wrap(b.fatSz * b.numFats) == fatSectors
            && Wrap(bsect + b.rsvd) == bsect + b.rsvd
            && Wrap(b.totSec - b.rsvd - fatSectors - b.rootEnt / 16) == b.totSec - b.MetaSectors()
            && DivU(b.totSec - b.MetaSectors(), b.secPerClus) == b.Clusters()
            && Wrap(b.Clusters() + 2) == b.Clusters() + 2
            && Wrap(bsect + b.rsvd + fatSectors) == bsect + b.rsvd + fatSectors
            && Wrap(bsect + b.rsvd + fatSectors + b.rootEnt / 16) == bsect + b.MetaSectors()
  {
    assert b.FatSectors() == b.fatSz * b.numFats;
    QuotientBound(b.totSec - b.MetaSectors(), b.secPerClus);
    hide Wrap, Bpb.FatSectors, Pow2;
    WrapSmall(b.FatSectors());
    WrapSmall(bsect + b.rsvd);
    WrapSmall(b.totSec - b.MetaSectors());
    WrapSmall(b.Clusters() + 2);
    WrapSmall(bsect + b.rsvd + b.FatSectors());
    WrapSmall(bsect + b.MetaSectors());
  }

  lemma QuotientBound(x: nat, y: nat)
    requires y > 0
    ensures x / y <= x
    ensures (x / y) * y <= x
  {
    BoundOf(x, y, x / y, x % y);
  }

  lemma BoundOf(x: nat, y: nat, q: nat, r: nat)
    requires y > 0 && x == y * q + r
    ensures q <= x && q * y <= x
  {
    assert y * q == q + (y - 1) * q;
  }

  lemma GeometrySound(disk: Disk, b: Bpb, bsect: nat)
    requires b.Consistent(bsect)
    ensures var v := Geometry(disk, b, bsect);
            && v.Sound() && v.RootAddressable() && v.DataEnd() <= bsect + b.totSec
            && v.database == v.fatbase + b.FatSectors() + b.rootEnt / 16
  {
    MountArithmetic(b, bsect);
    QuotientBound(b.totSec - b.MetaSectors(), b.secPerClus);
    assert Geometry(disk, b, bsect).DataEnd() == bsect + b.MetaSectors() + b.Clusters() * b.secPerClus;
  }

  /** The geometry found is sound, and every cluster owns sectors of its own: behind the FATs and the
      root directory, inside the volume, and disjoint from those of every other cluster. */
  lemma ClustersAreDisjoint(disk: Disk, b: Bpb, bsect: nat, c: nat, d: nat)
    requires b.Consistent(bsect)
    ensures var v := Geometry(disk, b, bsect);
            && v.Sound() && v.RootAddressable()
            && (v.ValidClust(c) ==>
                  && v.fatbase + b.FatSectors() + b.rootEnt / 16 <= v.Clust2Sect(c)
                  && v.Clust2Sect(c) + v.csize <= bsect + b.totSec)
            && (v.ValidClust(c) && v.ValidClust(d) && c < d ==> v.Clust2Sect(c) + v.csize <= v.Clust2Sect(d))
  {
    GeometrySound(disk, b, bsect);
    hide Wrap, Pow2, Geometry, Volume.Span;
    var v := Geometry(disk, b, bsect);
    if v.ValidClust(c) {
      ClusterInside(v, c);
      if v.ValidClust(d) && c < d {
        ClusterInside(v, d);
        v.SpanMonotone(c - 2, d - 2);
      }
    }
  }

  lemma ClusterInside(v: Volume, c: nat)
    requires v.Sound() && v.ValidClust(c)
    ensures v.Clust2Sect(c) == v.database + v.Span(c - 2)
    ensures v.Clust2Sect(c) + v.csize <= v.DataEnd()
  {
    hide Wrap, Pow2, Volume.Span;
    v.SpanMonotone(c - 2, v.nFatent - 2);
    WrapSmall(v.Span(c - 2) + v.database);
  }

  // ---- a volume that is turned away

  /** A boot sector with a consistent parameter block for 4085 clusters of one sector. */
  function GapSector(): Sector {
    seq<byte>(512, i requires 0 <= i < 512 => GapByte(i))
  }

  function GapByte(i: nat): byte {
    match i
    case 13 => 1           // sectors per cluster
    case 14 => 1           // reserved sectors
    case 16 => 1           // number of FATs
    case 19 => 0x06        // total sectors: 4102
    case 20 => 0x10
    case 22 => 16          // sectors per FAT
    case 54 => 0x46        // "FA"
    case 55 => 0x41
    case 510 => 0x55
    case 511 => 0xAA
    case _ => 0
  }

  lemma GapField(at: nat, n: nat)
    requires n in {2, 4} && at + n <= 512
    ensures n == 2 ==> Field(GapSector(), at, 2) == (GapByte(at) as int) + 256 * (GapByte(at + 1) as int)
    ensures n == 4 && GapByte(at) == GapByte(at + 1) == GapByte(at + 2) == GapByte(at + 3) == 0 ==>
              Field(GapSector(), at, 4) == 0
  {
    hide GapByte;
    if n == 2 {
      LittleEndian2(GapSector()[at..at + 2]);
    } else {
      LittleEndian4(GapSector()[at..at + 4]);
    }
  }

  lemma GapRecord(disk: Disk)
    requires 0 in disk && disk[0] == GapSector()
    ensures BootSector(disk) == (FatRecord, 0)
  {
    GapField(54, 2);
    GapField(510, 2);
    hide Field;
  }

  lemma GapBlock()
    ensures BpbOf(GapSector()) == Bpb(1, 1, 1, 0, 4102, 16, 0)
  {
    GapField(14, 2); GapField(17, 2); GapField(19, 2); GapField(22, 2); GapField(44, 4);
    hide Field;
  }

  /** Its volume is consistent, with FATs long enough for it, and by the specification it is FAT16; but
      `PfMount` on a disk that starts with it reports that there is no file system. */
  lemma GapIsReachable(disk: Disk)
    requires 0 in disk && disk[0] == GapSector()
    ensures BootSector(disk) == (FatRecord, 0)
    ensures var b := BpbOf(disk[0]);
            b.Consistent(0) && b.Clusters() == 4085 && b.FatsSuffice() && SpecifiedType(4085) == FAT16
  {
    hide BpbOf;
    GapRecord(disk);
    GapBlock();
  }

  // ---- the first FAT

  /** Every FAT entry that a valid cluster number selects lies inside the first FAT. */
  lemma EntriesInsideFat(disk: Disk, b: Bpb, bsect: nat, c: nat, i: nat)
    requires b.Consistent(bsect) && b.FatsSuffice()
    requires var v := Geometry(disk, b, bsect);
             v.ValidClust(c) && v.EntryStride() * c / 2 <= i <= (v.EntryStride() * c + v.EntryDigits() - 1) / 2
    ensures var v := Geometry(disk, b, bsect);
            v.fatbase <= (v.fatbase + i / 512) % M32 < v.fatbase + b.fatSz
  {
    var v := Geometry(disk, b, bsect);
    FatBehindReserved(b, bsect);
    hide Pow2, Bpb.Clusters, Bpb.FatSectors;
    EntryInside(v.EntryStride(), v.EntryDigits(), c, b.Clusters() + 2, b.fatSz, i);
    WrapSmall(v.fatbase + i / 512);
  }

  lemma EntryInside(stride: nat, digits: nat, c: nat, entries: nat, fatSz: nat, i: nat)
    requires stride in {3, 4, 8} && digits <= stride && c < entries && stride * entries <= 1024 * fatSz
    requires i <= (stride * c + digits - 1) / 2
    ensures i < 512 * fatSz
  {
    Multiples(c, entries, stride);
    assert 2 * i < stride * c + stride;
  }

  lemma FatBehindReserved(b: Bpb, bsect: nat)
    requires b.Consistent(bsect)
    ensures bsect + b.rsvd + b.fatSz < M32
  {
    hide Pow2;
    FactorBound(b.numFats, b.fatSz);
    hide Bpb.FatSectors;
  }

  lemma FactorBound(a: nat, b: nat)
    requires a > 0
    ensures b <= a * b
  {
    Multiples(0, a, b);
  }
}
