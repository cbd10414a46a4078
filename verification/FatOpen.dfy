/** Opening a file by its path. */
module FatOpen {
  import opened Words
  import opened FatVolume
  import opened FatFile
  import opened FatDir
  import opened FatNames

  /** Start cluster in a directory entry; the high half is used on FAT32 only. */
  function StartCluster(v: Volume, e: seq<byte>): nat
    requires |e| == 32
  {
    (if v.fsType.FAT32? then 0x10000 * LittleEndian(e[20..22]) else 0) + LittleEndian(e[26..28])
  }

  /** The start cluster in single bytes. */
  lemma StartClusterBytes(v: Volume, e: seq<byte>)
    requires |e| == 32
    ensures StartCluster(v, e) ==
              (e[26] as int) + 0x100 * (e[27] as int)
              + if v.fsType == FAT32 then 0x10000 * (e[20] as int) + 0x1000000 * (e[21] as int) else 0
  {
    LittleEndian2(e[20..22]);
    LittleEndian2(e[26..28]);
  }

  datatype Lookup = Hit(entry: seq<byte>) | Miss(res: FResult)

  /** The entry of `fn` in a directory, or why there is none. */
  ghost function LookUp(v: Volume, sclust: nat, fn: seq<byte>): (l: Lookup)
    requires v.Sound() && |fn| == 12
    ensures l.Hit? ==> |l.entry| == 32
  {
    var d := Directory(v, sclust);
    if sclust == 1 || sclust >= v.nFatent then Miss(DiskErr)
    else if k: nat :| d.FirstNaming(k, fn) then Hit(d.Entry(k))
    else if exists k :: d.StopsAt(k, fn) && !d.IoError(k) then Miss(NoFile)
    else Miss(DiskErr)
  }

  /** A search has one possible outcome: the entry looked up, or the reason for its absence. */
  lemma OutcomeIsLookUp(v: Volume, sclust: nat, fn: seq<byte>, res: FResult, index: nat)
    requires v.Sound() && |fn| == 12 && SearchOutcome(v, sclust, fn, res, index)
    ensures LookUp(v, sclust, fn) == if res == Ok then Hit(Directory(v, sclust).Entry(index)) else Miss(res)
  {
    hide Directory.SlotSector, Directory.SlotReach, Directory.Entry;
    var d := Directory(v, sclust);
    if sclust != 1 && sclust < v.nFatent {
      if res == Ok {
        forall j: nat | d.FirstNaming(j, fn)
          ensures j == index
        {
          SearchOutcomeUnique(d, fn, index, j);
        }
      } else {
        var k: nat :| d.StopsAt(k, fn) && (d.IoError(k) <==> res == DiskErr);
        forall j: nat
          ensures !d.FirstNaming(j, fn) && (d.StopsAt(j, fn) ==> j == k)
        {
          SearchOutcomeUnique(d, fn, j, k);
          SearchOutcomeUnique(d, fn, k, j);
        }
      }
    }
  }

  /** What a path leads to from directory `sclust`, read from character `i` on. */
  ghost function Resolve(v: Volume, cvt: seq<byte>, path: seq<byte>, i: nat, sclust: nat): (l: Lookup)
    requires v.Sound() && |cvt| == 128
    ensures l.Hit? ==> |l.entry| == 32
    decreases if i <= |path| then |path| - i else 0
  {
    var fn := DirForm(cvt, path, i);
    var l := LookUp(v, sclust, fn);
    if l.Miss? || fn[11] == 1 then l
    else if BitAnd(l.entry[DIR_ATTR], AM_DIR) == 0 then Miss(NoFile)
    else Resolve(v, cvt, path, SegmentAt(path, i).last + 1, StartCluster(v, l.entry))
  }

  lemma ResolveStep(v: Volume, cvt: seq<byte>, path: seq<byte>, i: nat, sclust: nat)
    requires v.Sound() && |cvt| == 128
    ensures var fn := DirForm(cvt, path, i);
            var l := LookUp(v, sclust, fn);
            && Resolve(v, cvt, path, i, sclust) ==
               (if l.Miss? || fn[11] == 1 then l
                else if BitAnd(l.entry[DIR_ATTR], AM_DIR) == 0 then Miss(NoFile)
                else Resolve(v, cvt, path, SegmentAt(path, i).last + 1, StartCluster(v, l.entry)))
  {
    hide LookUp, DirForm;
  }

  /** An entry with attribute bit 4 is gone through when the segment is not the last one; any other entry there
      makes an end of the path. */
  lemma ResolveThrough(v: Volume, cvt: seq<byte>, path: seq<byte>, i: nat, sclust: nat)
    requires v.Sound() && |cvt| == 128 && LookUp(v, sclust, DirForm(cvt, path, i)).Hit?
    ensures var e := LookUp(v, sclust, DirForm(cvt, path, i)).entry;
            var last := SegmentAt(path, i).last;
            Resolve(v, cvt, path, i, sclust) ==
            if At(path, last) <= 0x20 then Hit(e)
            else if e[11] / 16 % 2 == 1 then Resolve(v, cvt, path, last + 1, StartCluster(v, e))
            else Miss(NoFile)
  {
    hide LookUp, Resolve, At, BitAnd, StartCluster, SegmentAt;
    ResolveStep(v, cvt, path, i, sclust);
    AttributeBits(LookUp(v, sclust, DirForm(cvt, path, i)).entry[11]);
  }

  /** Follow the path from character `start` on; on success `dir` holds the entry it leads to. It ends on
      any volume. */
  method FollowPath(v: Volume, cvt: seq<byte>, path: seq<byte>, start: nat, dir: array<byte>) returns (res: FResult)
    requires v.dirbase < M32 && |cvt| == 128 && dir.Length == 32
    modifies dir
    ensures res in {Ok, NoFile, DiskErr}
    ensures v.Sound() && v.RootAddressable() ==>
              match Resolve(v, cvt, path, start, 0)
              case Hit(e) => res == Ok && dir[..] == e
              case Miss(r) => res == r != Ok
  {
    hide Volume.Sound, Resolve, LookUp, DirForm, SegmentAt, SearchOutcome, Directory.Entry, BitAnd, Pow2;
    var dj := new Dir(0);
    var pos := start;
    ghost var sound := v.Sound() && v.RootAddressable();
    while true
      invariant sound ==> Resolve(v, cvt, path, start, 0) == Resolve(v, cvt, path, pos, dj.sclust)
      invariant dj.sclust < M32
      decreases if pos <= |path| then |path| - pos else 0
    {
      SegmentShortens(cvt, path, pos);
      if sound {
        ResolveStep(v, cvt, path, pos, dj.sclust);
      }
      var fn;
      fn, pos := CreateName(cvt, path, pos);
      dj.fn := fn;
      ghost var count;
      res, count := dj.Find(v, dir);
      if sound {
        OutcomeIsLookUp(v, dj.sclust, fn, res, dj.index);
      }
      if res != Ok {
        return;
      }
      if dj.fn[11] != 0 {
        return;
      }
      assert dir[DIR_ATTR] == dir[..][DIR_ATTR];
      if BitAnd(dir[DIR_ATTR], AM_DIR) == 0 {
        return NoFile;
      }
      dj.sclust := GetClust(v, dir);
    }
  }

  /** A segment that is not flagged as the last one ends inside the path. */
  lemma SegmentShortens(cvt: seq<byte>, path: seq<byte>, i: nat)
    requires |cvt| == 128
    ensures var fn := DirForm(cvt, path, i);
            fn[11] in {0, 1} && (fn[11] == 0 ==> i <= SegmentAt(path, i).last < |path|)
  {}

  method GetClust(v: Volume, dir: array<byte>) returns (clst: nat)
    requires dir.Length == 32
    ensures clst == StartCluster(v, dir[..]) < M32
  {
    assert dir[20..22] == dir[..][20..22] && dir[26..28] == dir[..][26..28];
    LittleEndian2(dir[20..22]);
    LittleEndian2(dir[26..28]);
    clst := 0;
    if v.fsType.FAT32? {
      clst := LdWord(dir, 20);
      clst := clst * 0x10000;
    }
    var low := LdWord(dir, 26);
    clst := clst + low;
  }

  /** Number of blanks from character `i` on. */
  function Blanks(path: seq<byte>, i: nat): (n: nat)
    decreases if i <= |path| then |path| - i else 0
  {
    if At(path, i) == SPACE then 1 + Blanks(path, i + 1) else 0
  }

  /** Where a path starts: after leading blanks and one separator. */
  function PathStart(path: seq<byte>): nat {
    var n := Blanks(path, 0);
    if At(path, n) == SLASH then n + 1 else n
  }

  /** Any number of blanks in front and one slash behind them are passed over. */
  lemma {:induction false} PathStartIs(path: seq<byte>, n: nat)
    requires n <= |path| && (forall k :: 0 <= k < n ==> path[k] == 0x20) && (n < |path| ==> path[n] != 0x20)
    ensures PathStart(path) == n + if n < |path| && path[n] == 0x2F then 1 else 0
  {
    BlanksAre(path, 0, n);
  }

  lemma {:induction false} BlanksAre(path: seq<byte>, i: nat, n: nat)
    requires i <= n <= |path| && (forall k :: i <= k < n ==> path[k] == 0x20) && (n < |path| ==> path[n] != 0x20)
    ensures Blanks(path, i) == n - i
    decreases n - i
  {
    if i < n {
      BlanksAre(path, i + 1, n);
    }
  }

  /** What a whole path leads to; the empty path is the root directory, which is no file. */
  ghost function Target(v: Volume, cvt: seq<byte>, path: seq<byte>): (l: Lookup)
    requires v.Sound() && |cvt| == 128
    ensures l.Hit? ==> |l.entry| == 32
  {
    var l := if At(path, PathStart(path)) < SPACE then Miss(NoFile) else Resolve(v, cvt, path, PathStart(path), 0);
    if l.Hit? && (l.entry[0] == 0 || BitAnd(l.entry[DIR_ATTR], AM_DIR) != 0) then Miss(NoFile) else l
  }

  /** Entries come from a search: in use, and no volume labels. */
  lemma {:induction false} ResolveHit(v: Volume, cvt: seq<byte>, path: seq<byte>, i: nat, sclust: nat)
    requires v.Sound() && |cvt| == 128 && Resolve(v, cvt, path, i, sclust).Hit?
    ensures var e := Resolve(v, cvt, path, i, sclust).entry;
            e[0] != 0 && e[11] / 8 % 2 == 0
    decreases if i <= |path| then |path| - i else 0
  {
    hide Directory.SlotSector, Directory.SlotReach, Directory.Entry, BitAnd, StartCluster, SegmentAt;
    var l := LookUp(v, sclust, DirForm(cvt, path, i));
    if l.Hit? {
      AttributeBits(l.entry[11]);
      SegmentShortens(cvt, path, i);
      if DirForm(cvt, path, i)[11] != 1 && BitAnd(l.entry[DIR_ATTR], AM_DIR) != 0 {
        ResolveHit(v, cvt, path, SegmentAt(path, i).last + 1, StartCluster(v, l.entry));
      }
    }
  }

  /** What is opened is a file: its entry is in use and neither a volume label nor a directory. */
  lemma TargetIsFile(v: Volume, cvt: seq<byte>, path: seq<byte>)
    requires v.Sound() && |cvt| == 128 && Target(v, cvt, path).Hit?
    ensures var e := Target(v, cvt, path).entry;
            e[0] != 0 && e[11] / 8 % 2 == 0 && e[11] / 16 % 2 == 0
  {
    hide Resolve, PathStart, BitAnd;
    ResolveHit(v, cvt, path, PathStart(path), 0);
    AttributeBits(Target(v, cvt, path).entry[11]);
  }

  method StripPath(path: seq<byte>) returns (pos: nat)
    ensures pos == PathStart(path)
  {
    pos := 0;
    while At(path, pos) == SPACE
      invariant pos + Blanks(path, pos) == Blanks(path, 0)
      decreases if pos <= |path| then |path| - pos else 0
    {
      pos := pos + 1;
    }
    if At(path, pos) == SLASH {
      pos := pos + 1;
    }
  }

  /** Open the file at `path`: afterwards the cursor is at the first byte of the file the entry describes. */
  method PfOpen(fs: FatFs, cvt: seq<byte>, path: seq<byte>) returns (res: FResult)
    requires |cvt| == 128 && fs.Shape() && (fs.mounted ==> fs.vol.dirbase < M32)
    modifies fs`isOpen, fs`orgClust, fs`fsize, fs`fptr
    ensures fs.Shape()
    ensures !fs.mounted ==> res == NotEnabled && fs.isOpen == old(fs.isOpen)
    ensures fs.mounted ==>
              && (fs.isOpen <==> res == Ok)
              && (res == Ok ==> fs.fptr == 0)
    ensures fs.mounted && fs.vol.Sound() && fs.vol.RootAddressable() ==>
              && fs.Valid()
              && match Target(fs.vol, cvt, path)
                 case Miss(r) => res == r != Ok
                 case Hit(e) =>
                   res == Ok && fs.orgClust == StartCluster(fs.vol, e) && fs.fsize == LittleEndian(e[28..32])
  {
    hide Resolve, StartCluster, BitAnd, Pow2, LittleEndian, PathStart, Cursor, Volume.DataEnd;
    if !fs.mounted {
      return NotEnabled;
    }
    fs.isOpen := false;
    var dir := new byte[32];
    var pos := StripPath(path);
    if At(path, pos) < SPACE {
      return NoFile;
    }
    res := FollowPath(fs.vol, cvt, path, pos, dir);
    if res != Ok {
      return;
    }
    assert dir[0] == dir[..][0] && dir[DIR_ATTR] == dir[..][DIR_ATTR];
    if dir[0] == 0 || BitAnd(dir[DIR_ATTR], AM_DIR) != 0 {
      return NoFile;
    }
    fs.orgClust := GetClust(fs.vol, dir);
    fs.fsize := LdDword(dir, 28);
    assert dir[28..32] == dir[..][28..32];
    fs.fptr := 0;
    fs.isOpen := true;
    CursorAtStart(fs.vol, fs.orgClust, fs.currClust, fs.dsect);
  }
}
