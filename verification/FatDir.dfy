/** Directories: a run of 32-byte slots along the root table or a cluster chain, and the search in it. */
module FatDir {
  import opened Words
  import opened FatVolume
  import opened FatFile

  const DIR_ATTR := 11
  const AM_VOL := 0x08
  const AM_DIR := 0x10

  /** Bit 3 and bit 4 of the attribute byte. */
  lemma AttributeBits(a: byte)
    ensures BitAnd(a, AM_VOL) != 0 <==> a / 8 % 2 == 1
    ensures BitAnd(a, AM_DIR) != 0 <==> a / 16 % 2 == 1
  {
    BitAndPow2(a, AM_VOL);
    BitAndPow2(a, AM_DIR);
  }

  /** How far slot `i` of a directory can be reached from the slots before it. */
  datatype Reach = Slot | End | Broken

  /** A directory on a volume, by its start cluster; 0 is the root. */
  datatype Directory = Directory(v: Volume, sclust: nat) {

    ghost predicate Sound() {
      v.Sound() && v.RootAddressable() && sclust != 1 && sclust < v.nFatent
    }

    /** The fixed root table of FAT12 and FAT16. */
    predicate IsTable() {
      sclust == 0 && (!v.fsType.FAT32? || v.dirbase == 0)
    }

    /** First cluster of a directory that is a cluster chain. */
    function Start(): nat {
      if sclust == 0 && v.fsType.FAT32? then v.dirbase else sclust
    }

    /** The cluster of the chain that holds slot `i`. */
    function SlotCluster(i: nat): nat
      requires v.csize > 0
    {
      i / 16 / v.csize
    }

    /** The sector of that cluster that holds slot `i`. */
    function SlotOffset(i: nat): nat
      requires v.csize > 0
    {
      i / 16 % v.csize
    }

    /** A reached cluster of a chain directory is a cluster; the next one is where its link leads. */
    lemma {:induction false} ReachedIsValid(q: nat)
      requires v.ValidClust(Start()) && ClusterReach(q) == Slot
      ensures v.ValidClust(Chain(v, Start(), q))
      ensures Chain(v, Start(), q + 1) == v.Link(Chain(v, Start(), q))
      ensures var link := v.Link(Chain(v, Start(), q));
              ClusterReach(q + 1) == if link <= 1 then Broken else if link >= v.nFatent then End else Slot
    {
      if q > 0 {
        ReachedIsValid(q - 1);
      }
    }

    lemma FirstSlot()
      requires v.csize > 0
      ensures SlotCluster(0) == 0 && SlotOffset(0) == 0
    {
      DivModUnique(0, v.csize, 0, 0);
    }

    lemma NextSlot(i: nat)
      requires v.csize > 0
      ensures (i + 1) % 16 != 0 ==>
                (i + 1) / 16 == i / 16 && SlotCluster(i + 1) == SlotCluster(i) && SlotOffset(i + 1) == SlotOffset(i)
      ensures (i + 1) % 16 == 0 ==>
                && (i + 1) / 16 == i / 16 + 1
                && (if SlotOffset(i + 1) == 0 then SlotCluster(i + 1) == SlotCluster(i) + 1
                    else SlotCluster(i + 1) == SlotCluster(i) && SlotOffset(i + 1) == SlotOffset(i) + 1)
      ensures SlotOffset(i) < v.csize && SlotOffset(i + 1) < v.csize
    {
      NextQuotient(i / 16, v.csize);
    }

    /** Sector of slot `i`; entries are numbered along the table or the chain. */
    ghost function SlotSector(i: nat): nat
      requires v.csize > 0
    {
      if IsTable() then v.dirbase + i / 16
      else ChainSector(Chain(v, Start(), SlotCluster(i)), SlotOffset(i))
    }

    ghost function ChainSector(c: nat, s: nat): nat {
      if v.ValidClust(c) && c < M32 then v.Clust2Sect(c) + s else 0
    }

    /** The `q`-th cluster of the directory exists, or the chain ends or breaks before it. */
    ghost function ClusterReach(q: nat): Reach {
      if q == 0 then Slot
      else if ClusterReach(q - 1) != Slot then ClusterReach(q - 1)
      else
        var link := v.Link(Chain(v, Start(), q - 1));
        if link <= 1 then Broken else if link >= v.nFatent then End else Slot
    }

    /** Slot `i` exists. The fixed table is checked against its size once per sector only; a directory
        that starts in sector 0, for want of a valid start, has a single slot. Numbers stop at 65535. */
    ghost function SlotReach(i: nat): Reach
      requires v.csize > 0
    {
      if i > 65535 then End
      else if IsTable() then if (i >= 16 && i / 16 * 16 >= v.nRootdir) || (i > 0 && v.dirbase == 0) then End else Slot
      else if !v.ValidClust(Start()) then if i == 0 then Slot else End
      else ClusterReach(SlotCluster(i))
    }

    /** The bytes of slot `i`. */
    ghost function Entry(i: nat): (e: seq<byte>)
      requires v.csize > 0 && SlotSector(i) in v.disk
      ensures |e| == 32
    {
      v.disk[SlotSector(i)][i % 16 * 32..i % 16 * 32 + 32]
    }

    /** Slot `i` is a directory entry before the end marker. */
    ghost predicate InUse(i: nat)
      requires v.csize > 0
    {
      SlotReach(i) == Slot && SlotSector(i) in v.disk && Entry(i)[0] != 0
    }

    /** Slot `i` names the object `fn`: its eleven name bytes match and it is no volume label. */
    ghost predicate Names(i: nat, fn: seq<byte>)
      requires v.csize > 0 && |fn| >= 11
    {
      InUse(i) && BitAnd(Entry(i)[DIR_ATTR], AM_VOL) == 0 && Entry(i)[..11] == fn[..11]
    }

    /** Slot `k` is the first to name `fn`, and every slot before it is in use. */
    ghost predicate FirstNaming(k: nat, fn: seq<byte>)
      requires v.csize > 0 && |fn| >= 11
    {
      Names(k, fn) && forall i: nat :: i < k ==> InUse(i) && !Names(i, fn)
    }

    /** The search cannot get past slot `k`, or cannot read it. */
    ghost predicate IoError(k: nat)
      requires v.csize > 0
    {
      SlotReach(k) == Broken || (SlotReach(k) == Slot && SlotSector(k) !in v.disk)
    }

    /** The search stops at slot `k` without having found `fn`. */
    ghost predicate StopsAt(k: nat, fn: seq<byte>)
      requires v.csize > 0 && |fn| >= 11
    {
      !InUse(k) && forall i: nat :: i < k ==> InUse(i) && !Names(i, fn)
    }
  }

  /** What it takes for slot `i` to name `fn`, in the bytes of its sector. */
  lemma NamesMeans(d: Directory, i: nat, fn: seq<byte>)
    requires d.v.csize > 0 && |fn| == 12
    ensures d.Names(i, fn) <==>
              && d.SlotReach(i) == Slot && d.SlotSector(i) in d.v.disk
              && var s, at := d.v.disk[d.SlotSector(i)], i % 16 * 32;
                 s[at] != 0x00 && s[at + 11] / 8 % 2 == 0 && s[at..at + 11] == fn[..11]
    ensures d.InUse(i) <==>
              d.SlotReach(i) == Slot && d.SlotSector(i) in d.v.disk && d.v.disk[d.SlotSector(i)][i % 16 * 32] != 0x00
  {
    hide Directory.SlotReach, Directory.SlotSector, BitAnd;
    if d.SlotSector(i) in d.v.disk {
      var s, at := d.v.disk[d.SlotSector(i)], i % 16 * 32;
      AttributeBits(s[at + 11]);
      assert s[at..at + 32][..11] == s[at..at + 11];
    }
  }

  lemma {:induction false} ReachIsChain(d: Directory, q: nat)
    requires d.v.ValidClust(d.Start())
    ensures d.ClusterReach(q) == Slot <==> d.v.ValidClust(Chain(d.v, d.Start(), q))
  {
    if q > 0 {
      ReachIsChain(d, q - 1);
    }
  }

  lemma SlotByte(d: Directory, i: nat, p: nat)
    requires d.Sound() && !d.IsTable() && d.v.ValidClust(d.Start()) && d.SlotReach(i) == Slot
    requires 32 * i <= p < 32 * i + 32
    ensures Located(d.v, d.Start(), p) <==> d.SlotSector(i) in d.v.disk
    ensures d.SlotSector(i) in d.v.disk ==> ByteAt(d.v, d.Start(), p) == d.Entry(i)[p - 32 * i]
  {
    hide Chain, Volume.Clust2Sect, Directory.ClusterReach, Pow2, Volume.DataEnd;
    ReachIsChain(d, d.SlotCluster(i));
    assert p / 512 == i / 16 && p % 512 == i % 16 * 32 + (p - 32 * i);
    assert ClusterNo(d.v, p) == d.SlotCluster(i) && SectorNo(d.v, p) == d.SlotOffset(i);
    assert ByteSector(d.v, d.Start(), p) == d.SlotSector(i);
  }

  /** A directory in clusters is the file of its chain, 32 bytes a slot. */
  lemma SlotInFile(d: Directory, i: nat)
    requires d.Sound() && !d.IsTable() && d.v.ValidClust(d.Start()) && d.SlotReach(i) == Slot
    ensures AllLocated(d.v, d.Start(), 32 * i, 32) <==> d.SlotSector(i) in d.v.disk
    ensures d.SlotSector(i) in d.v.disk ==> d.Entry(i) == Bytes(d.v, d.Start(), 32 * i, 32)
  {
    SoundSize(d.v);
    hide Volume.Sound, Directory.SlotSector, Directory.Entry, Directory.SlotReach, Located, ByteAt;
    forall p: nat | 32 * i <= p < 32 * i + 32
      ensures Located(d.v, d.Start(), p) <==> d.SlotSector(i) in d.v.disk
      ensures d.SlotSector(i) in d.v.disk ==> ByteAt(d.v, d.Start(), p) == d.Entry(i)[p - 32 * i]
    {
      SlotByte(d, i, p);
    }
    assert Located(d.v, d.Start(), 32 * i) <==> d.SlotSector(i) in d.v.disk;
  }

  /** It has a slot wherever the chain has a cluster, up to number 65535. */
  lemma SlotsOfChain(d: Directory, i: nat)
    requires d.Sound() && !d.IsTable() && d.v.ValidClust(d.Start())
    ensures d.SlotReach(i) == Slot <==>
              i <= 65535 && d.v.ValidClust(Chain(d.v, d.Start(), ClusterNo(d.v, 32 * i)))
  {
    SoundSize(d.v);
    hide Chain, Volume.Sound, Directory.ClusterReach;
    ReachIsChain(d, d.SlotCluster(i));
    assert 32 * i / 512 == i / 16;
  }

  /** The root directory of a FAT12 or FAT16 volume has as many slots as the boot sector says, 16 in a sector. */
  lemma TableSlots(d: Directory, i: nat)
    requires d.v.csize > 0 && d.sclust == 0 && d.v.fsType != FAT32 && d.v.dirbase > 0
    requires 0 < d.v.nRootdir <= 65536 && d.v.nRootdir % 16 == 0
    ensures d.SlotReach(i) == (if i < d.v.nRootdir then Slot else End) && d.SlotSector(i) == d.v.dirbase + i / 16
  {}

  lemma MaskIsSlotOffset(d: Directory, i: nat)
    requires d.v.Sound()
    ensures BitAnd(i / 16, d.v.csize - 1) == d.SlotOffset(i)
  {
    MaskIsModulo(i / 16, d.v.csize);
  }

  lemma NextQuotient(s: nat, c: nat)
    requires c > 0
    ensures s % c < c && (s + 1) % c < c
    ensures if (s + 1) % c == 0 then (s + 1) / c == s / c + 1
            else (s + 1) / c == s / c && (s + 1) % c == s % c + 1
  {
    var q, r := s / c, s % c;
    assert s == c * q + r;
    if r + 1 < c {
      DivModUnique(s + 1, c, q, r + 1);
    } else {
      assert c * (q + 1) == c * q + c;
      DivModUnique(s + 1, c, q + 1, 0);
    }
  }

  /** The directory object. */
  class Dir {
    var index: nat
    var fn: seq<byte>
    var sclust: nat
    var clust: nat
    var sect: nat

    constructor (sclust: nat)
      ensures this.sclust == sclust
    {
      index, fn, clust, sect := 0, [], 0, 0;
      this.sclust := sclust;
    }

    ghost predicate At(d: Directory)
      requires d.Sound()
      reads this
    {
      && sclust == d.sclust && d.SlotReach(index) == Slot && sect == d.SlotSector(index)
      && clust == (if d.IsTable() then 0 else Chain(d.v, d.Start(), d.SlotCluster(index)))
      && clust < M32
    }

    /** Go to the first slot of the directory `sclust`. */
    method Rewind(v: Volume) returns (res: FResult)
      requires sclust < M32 && v.dirbase < M32
      modifies this`index, this`clust, this`sect
      ensures sclust == 1 || sclust >= v.nFatent ==> res == DiskErr
      ensures sclust != 1 && sclust < v.nFatent ==> res == Ok
      ensures res == Ok ==> index == 0 && clust < M32
      ensures res == Ok && v.Sound() && v.RootAddressable() ==> At(Directory(v, sclust))
    {
      hide Pow2, Volume.Clust2Sect, Volume.DataEnd, Directory.SlotCluster, Directory.SlotOffset;
      index := 0;
      var clst := sclust;
      if clst == 1 || clst >= v.nFatent {
        return DiskErr;
      }
      if clst == 0 && v.fsType.FAT32? {
        clst := v.dirbase;
      }
      if v.Sound() {
        Directory(v, sclust).FirstSlot();
        Clust2SectBounds(v, clst);
      }
      clust := clst;
      if clst != 0 {
        sect := v.Clust2Sect(clst);
      } else {
        sect := v.dirbase;
      }
      return Ok;
    }

    /** Go to the next slot; `sect` stays the sector of slot `index`. On any volume at all the index
        grows by one, up to 65535. */
    method Next(v: Volume) returns (res: FResult)
      requires clust < M32 && index <= 65535
      modifies this`index, this`clust, this`sect
      ensures res in {Ok, NoFile, DiskErr}
      ensures res == Ok ==> index == old(index) + 1 <= 65535 && clust < M32
      ensures var d := Directory(v, sclust);
              d.Sound() && old(At(d)) ==>
                match d.SlotReach(old(index) + 1)
                case Slot => res == Ok && At(d)
                case End => res == NoFile
                case Broken => res == DiskErr
    {
      hide Pow2, Chain, BitAnd, Wrap, Volume.Clust2Sect, Volume.Link, Volume.DataEnd;
      hide Volume.Sound, Directory.SlotCluster, Directory.SlotOffset;
      ghost var d := Directory(v, sclust);
      SoundSize(v);
      if d.Sound() && At(d) {
        d.NextSlot(index);
        d.FirstSlot();
        ChainStart(v, d.Start());
        Clust2SectBounds(v, clust);
        MaskIsSlotOffset(d, index + 1);
        WrapSmall(v.csize - 1);
        if v.ValidClust(d.Start()) && !d.IsTable() {
          d.ReachedIsValid(d.SlotCluster(index));
        }
        WrapSmall(sect + 1);
      }
      assert (index + 1) % 16 == 0 ==> (index + 1) / 16 * 16 == index + 1;
      var i := (index + 1) % 65536;
      if i == 0 || sect == 0 {
        return NoFile;
      }
      if i % 16 == 0 {
        sect := Wrap(sect + 1);
        if clust == 0 {
          if i >= v.nRootdir {
            return NoFile;
          }
        } else {
          if BitAnd(i / 16, Wrap(v.csize as int - 1)) == 0 {
            var clst := v.GetFat(clust);
            if clst <= 1 {
              return DiskErr;
            }
            if clst >= v.nFatent {
              return NoFile;
            }
            clust := clst;
            sect := v.Clust2Sect(clst);
          }
        }
      }
      index := i;
      return Ok;
    }

    /** Search the directory from its first slot for the object whose name is in `fn`; `dir` receives
        the last entry read. At most 65536 entries are read, whatever the volume, also on a cyclic chain. */
    method Find(v: Volume, dir: array<byte>) returns (res: FResult, ghost count: nat)
      requires sclust < M32 && v.dirbase < M32 && |fn| == 12 && dir.Length == 32
      modifies this`index, this`clust, this`sect, dir
      ensures count <= 65536 && res in {Ok, NoFile, DiskErr}
      ensures res == Ok ==> dir[..11] == fn[..11] && BitAnd(dir[DIR_ATTR], AM_VOL) == 0
      ensures v.Sound() && v.RootAddressable() ==>
                && SearchOutcome(v, sclust, fn, res, index)
                && (res == Ok ==> dir[..] == Directory(v, sclust).Entry(index))
    {
      hide Pow2, Volume.Sound, Directory.SlotSector, Directory.SlotReach, Directory.Entry, BitAnd, At;
      count := 0;
      res := Rewind(v);
      if res != Ok {
        return;
      }
      ghost var d := Directory(v, sclust);
      ghost var sound := v.Sound() && v.RootAddressable();
      SoundSize(v);
      while true
        invariant count == index <= 65535 && clust < M32
        invariant sound ==> d.Sound() && At(d) && forall i: nat :: i < index ==> d.InUse(i) && !d.Names(i, fn)
        decreases 65536 - index
      {
        count := count + 1;
        if sound {
          AtSlot(d);
        }
        var failed := DiskReadp(v.disk, dir, 0, sect, index % 16 * 32, 32);
        if failed {
          assert sound ==> d.StopsAt(index, fn);
          return DiskErr, count;
        }
        if sound {
          EntryRead(d, index, sect, dir[..]);
        }
        assert dir[..] == dir[0..32];
        assert dir[0] == dir[..][0] && dir[DIR_ATTR] == dir[..][DIR_ATTR] && dir[..11] == dir[..][..11];
        if dir[0] == 0 {
          assert sound ==> d.StopsAt(index, fn);
          return NoFile, count;
        }
        if BitAnd(dir[DIR_ATTR], AM_VOL) == 0 && dir[..11] == fn[..11] {
          return Ok, count;
        }
        ghost var i := index;
        res := Next(v);
        if res != Ok {
          assert sound ==> d.StopsAt(i + 1, fn);
          return;
        }
      }
    }

    /** A directory object at a slot: the slot exists, in the sector it holds. */
    lemma AtSlot(d: Directory)
      requires d.Sound() && At(d)
      ensures d.SlotReach(index) == Slot && sect == d.SlotSector(index)
    {}
  }

  lemma SoundSize(v: Volume)
    ensures v.Sound() ==> v.csize > 0
  {}

  lemma EntryRead(d: Directory, i: nat, sect: nat, e: seq<byte>)
    requires d.v.csize > 0 && sect == d.SlotSector(i) && sect in d.v.disk
    requires e == d.v.disk[sect][i % 16 * 32..i % 16 * 32 + 32]
    ensures e == d.Entry(i)
  {
    hide Directory.SlotSector;
  }

  /** A search for `fn` ends on the first slot that names it, or at the slot where it stops. */
  ghost predicate SearchOutcome(v: Volume, sclust: nat, fn: seq<byte>, res: FResult, index: nat)
    requires v.csize > 0 && |fn| >= 11
  {
    var d := Directory(v, sclust);
    if sclust == 1 || sclust >= v.nFatent then res == DiskErr
    else
      match res
      case Ok => d.FirstNaming(index, fn)
      case NoFile => exists k :: d.StopsAt(k, fn) && !d.IoError(k)
      case DiskErr => exists k :: d.StopsAt(k, fn) && d.IoError(k)
      case _ => false
  }

  lemma SlotBound(d: Directory, i: nat)
    requires d.v.csize > 0 && d.SlotReach(i) == Slot
    ensures i <= 65535
  {}

  /** The search has one outcome: no directory both names `fn` first somewhere and stops without it. */
  lemma SearchOutcomeUnique(d: Directory, fn: seq<byte>, k: nat, j: nat)
    requires d.v.csize > 0 && |fn| >= 11
    ensures d.FirstNaming(k, fn) && d.FirstNaming(j, fn) ==> k == j
    ensures d.StopsAt(k, fn) && d.StopsAt(j, fn) ==> k == j
    ensures !(d.FirstNaming(k, fn) && d.StopsAt(j, fn))
  {
    hide Directory.SlotSector, Directory.SlotReach, BitAnd;
  }
}
