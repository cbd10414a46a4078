/** An ordinary FAT32 card in numbers: partition table, boot sector, two directories, and the paths in them. */
module FatCard {
  import opened Words
  import opened FatVolume
  import opened FatFile
  import opened FatDir
  import opened FatNames
  import opened FatOpen
  import opened FatMount

  function Blank(): (s: Sector) {
    seq<byte>(512, _ => 0)
  }

  /** The first partition is of type 0x0C and starts at sector 8192. */
  function Table(): (s: Sector) {
    Blank()[450 := 0x0C][455 := 0x20][510 := 0x55][511 := 0xAA]
  }

  /** 8 sectors per cluster, 32 reserved, 2 FATs of 7640 sectors, 7831552 sectors in all, and the root
      directory in cluster 2. */
  function Boot(): (s: Sector) {
    Blank()[13 := 8][14 := 32][16 := 2][33 := 0x80][34 := 0x77][36 := 0xD8][37 := 0x1D][44 := 2]
    [82 := 0x46][83 := 0x41][510 := 0x55][511 := 0xAA]
  }

  /** A directory entry: name, attributes, start cluster (high half first) and size. */
  function NewEntry(name: seq<byte>, attr: byte, high: seq<byte>, low: seq<byte>, size: seq<byte>): (e: seq<byte>)
    requires |name| == 11 && |high| == 2 && |low| == 2 && |size| == 4
    ensures |e| == 32 && e[0] == name[0] && e[..11] == name && e[11] == attr
    ensures e[20..22] == high && e[26..28] == low && e[28..32] == size
  {
    name + [attr] + seq<byte>(8, _ => 0) + high + seq<byte>(4, _ => 0) + low + size
  }

  /** "SUB" */
  const SUB_NAME: seq<byte> := [0x53, 0x55, 0x42, 0x20, 0x20, 0x20, 0x20, 0x20, 0x20, 0x20, 0x20]
  const DELETED: seq<byte> := [0xE5] + BOOT_NAME[1..]

  function Label(): seq<byte> { NewEntry(BOOT_NAME, 0x08, [0, 0], [0, 0], [0, 0, 0, 0]) }
  function Deleted(): seq<byte> { NewEntry(DELETED, 0x20, [0, 0], [3, 0], [1, 0, 0, 0]) }
  function Sub(): seq<byte> { NewEntry(SUB_NAME, 0x10, [1, 0], [5, 0], [0, 0, 0, 0]) }
  function Image(): seq<byte> { NewEntry(BOOT_NAME, 0x20, [4, 0], [3, 2], [8, 7, 6, 0]) }
  function EndMark(): (e: seq<byte>)
    ensures |e| == 32
  {
    seq<byte>(32, _ => 0)
  }

  predicate Entries(es: seq<seq<byte>>) {
    |es| <= 16 && forall k :: 0 <= k < |es| ==> |es[k]| == 32
  }

  function DirSector(es: seq<seq<byte>>): (s: Sector)
    requires Entries(es)
  {
    seq<byte>(512, i requires 0 <= i < 512 => if i / 32 < |es| then es[i / 32][i % 32] else 0)
  }

  /** The root has a volume label "BOOT.BIN", a deleted file, a directory "SUB", the end of the directory and
      an old entry behind it; "SUB" has the file "BOOT.BIN". */
  function RootEntries(): (es: seq<seq<byte>>)
    ensures Entries(es)
  {
    [Label(), Deleted(), Sub(), EndMark(), Image()]
  }

  function SubEntries(): (es: seq<seq<byte>>)
    ensures Entries(es)
  {
    [Image()]
  }

  function Card(): Disk {
    map[0 := Table(), 8192 := Boot(), 23504 := DirSector(RootEntries()), 547816 := DirSector(SubEntries())]
  }

  /** The volume on the card: 977030 clusters, the FATs from sector 8224 on, the data from 23504 on. */
  function Vol(): Volume {
    Volume(Card(), FAT32, 8, 0, 977032, 8224, 2, 23504)
  }

  lemma VolIsSound()
    ensures Vol().Sound() && Vol().RootAddressable()
  {
    assert Pow2(8) by { assert Pow2(1) && Pow2(2) && Pow2(4); }
  }

  lemma CardBlock()
    ensures BpbOf(Boot()) == Bpb(8, 32, 2, 0, 7831552, 7640, 2)
  {
    BpbBytes(Boot());
    hide BpbOf;
  }

  /** Mounting the card finds that volume. */
  lemma CardMounts()
    ensures BootSector(Card()) == (FatRecord, 8192)
    ensures BpbOf(Card()[8192]) == Bpb(8, 32, 2, 0, 7831552, 7640, 2)
    ensures WrappedGeometry(Card(), BpbOf(Card()[8192]), 8192) == Vol()
  {
    CardBlock();
    hide BpbOf, SectorKind, BootSector;
    KindMeans(Card(), 0);
    KindMeans(Card(), 8192);
    BootSectorMeans(Card());
  }

  // ---- searches in a directory of one sector

  lemma DirSectorEntry(es: seq<seq<byte>>, k: nat)
    requires Entries(es) && k < |es|
    ensures DirSector(es)[k % 16 * 32..k % 16 * 32 + 32] == es[k]
  {
    var at := k % 16 * 32;
    forall j: nat | j < 32
      ensures DirSector(es)[at..at + 32][j] == es[k][j]
    {
      assert (at + j) / 32 == k && (at + j) % 32 == j;
    }
  }

  ghost predicate OnFirstSector(v: Volume, sclust: nat, es: seq<seq<byte>>)
  {
    && v.Sound() && v.RootAddressable() && sclust != 1 && sclust < v.nFatent && Entries(es)
    && var d := Directory(v, sclust);
       && !d.IsTable() && v.ValidClust(d.Start()) && d.Start() < M32
       && v.Clust2Sect(d.Start()) in v.disk && v.disk[v.Clust2Sect(d.Start())] == DirSector(es)
  }

  lemma SlotOf(v: Volume, sclust: nat, es: seq<seq<byte>>, k: nat)
    requires OnFirstSector(v, sclust, es) && k < |es|
    ensures var d := Directory(v, sclust);
            && d.SlotReach(k) == Slot && d.SlotSector(k) in v.disk && d.Entry(k) == es[k]
  {
    var d := Directory(v, sclust);
    DirSectorEntry(es, k);
    hide DirSector, Volume.Clust2Sect, Volume.Sound;
    assert k / 16 == 0;
    d.FirstSlot();
    assert d.SlotCluster(k) == 0 && d.SlotOffset(k) == 0;
    ChainStart(v, d.Start());
  }

  /** An entry that a search for `fn` goes past. */
  predicate Passed(e: seq<byte>, fn: seq<byte>)
    requires |e| == 32 && |fn| == 12
  {
    e[0] != 0 && (e[11] / 8 % 2 == 1 || e[..11] != fn[..11])
  }

  lemma PassedSlots(v: Volume, sclust: nat, es: seq<seq<byte>>, k: nat, fn: seq<byte>)
    requires OnFirstSector(v, sclust, es) && |fn| == 12 && k < |es| && forall i :: 0 <= i < k ==> Passed(es[i], fn)
    ensures var d := Directory(v, sclust);
            forall i: nat :: i < k ==> d.InUse(i) && !d.Names(i, fn)
  {
    assert v.Sound();
    SoundSize(v);
    hide OnFirstSector, Directory.SlotReach, Directory.SlotSector, Directory.Entry, BitAnd;
    forall i: nat | i < k
      ensures var d := Directory(v, sclust); d.InUse(i) && !d.Names(i, fn)
    {
      SlotOf(v, sclust, es, i);
      AttributeBits(es[i][11]);
    }
  }

  /** The first entry that is not passed is found, if it is a match. */
  lemma Found(v: Volume, sclust: nat, es: seq<seq<byte>>, k: nat, fn: seq<byte>)
    requires OnFirstSector(v, sclust, es) && |fn| == 12 && k < |es| && forall i :: 0 <= i < k ==> Passed(es[i], fn)
    requires es[k][0] != 0 && es[k][11] / 8 % 2 == 0 && es[k][..11] == fn[..11]
    ensures LookUp(v, sclust, fn) == Hit(es[k])
  {
    hide Directory.SlotReach, Directory.SlotSector, Directory.Entry, BitAnd, LookUp, Passed, DirSector;
    SlotOf(v, sclust, es, k);
    PassedSlots(v, sclust, es, k, fn);
    AttributeBits(es[k][11]);
    OutcomeIsLookUp(v, sclust, fn, Ok, k);
  }

  /** Nothing behind the end marker is found. */
  lemma Absent(v: Volume, sclust: nat, es: seq<seq<byte>>, k: nat, fn: seq<byte>)
    requires OnFirstSector(v, sclust, es) && |fn| == 12 && k < |es| && forall i :: 0 <= i < k ==> Passed(es[i], fn)
    requires es[k][0] == 0
    ensures LookUp(v, sclust, fn) == Miss(NoFile)
  {
    hide Directory.SlotReach, Directory.SlotSector, Directory.Entry, BitAnd, LookUp, Passed, DirSector;
    SlotOf(v, sclust, es, k);
    PassedSlots(v, sclust, es, k, fn);
    assert Directory(v, sclust).StopsAt(k, fn);
    OutcomeIsLookUp(v, sclust, fn, NoFile, k);
  }

  // ---- the directories of the card

  lemma RootAndSub()
    ensures OnFirstSector(Vol(), 0, RootEntries()) && OnFirstSector(Vol(), 65541, SubEntries())
  {
    hide DirSector, RootEntries, SubEntries, Volume.Sound, Volume.RootAddressable;
    VolIsSound();
  }

  lemma RootHas(fn: seq<byte>)
    requires |fn| == 12
    ensures fn[..11] == SUB_NAME ==> LookUp(Vol(), 0, fn) == Hit(Sub())
    ensures fn[..11] == BOOT_NAME ==> LookUp(Vol(), 0, fn) == Miss(NoFile)
  {
    hide LookUp, OnFirstSector;
    RootAndSub();
    var es := RootEntries();
    if fn[..11] == SUB_NAME {
      Found(Vol(), 0, es, 2, fn);
    } else if fn[..11] == BOOT_NAME {
      Absent(Vol(), 0, es, 3, fn);
    }
  }

  lemma SubHas(fn: seq<byte>)
    requires |fn| == 12
    ensures fn[..11] == BOOT_NAME ==> LookUp(Vol(), 65541, fn) == Hit(Image())
  {
    hide LookUp, OnFirstSector;
    RootAndSub();
    if fn[..11] == BOOT_NAME {
      Found(Vol(), 65541, SubEntries(), 0, fn);
    }
  }

  // ---- three paths

  /** " /sub/boot.bin" */
  const DEEP: seq<byte> := [0x20, 0x2F, 0x73, 0x75, 0x62, 0x2F] + BOOT_PATH
  /** "sub" */
  const DIRECTORY: seq<byte> := [0x73, 0x75, 0x62]

  lemma DeepForms(cvt: seq<byte>)
    requires |cvt| == 128
    ensures DirForm(cvt, DEEP, 2) == SUB_NAME + [0] && SegmentAt(DEEP, 2).last == 5
    ensures DirForm(cvt, DEEP, 6) == BOOT_NAME + [1] && SegmentAt(DEEP, 6).last == 14
  {
    hide DirForm, SegmentAt;
    BootName(cvt, DEEP[..6]);
    SubForm(cvt, DEEP[..2], DEEP[5..]);
    assert DEEP == DEEP[..6] + BOOT_PATH == DEEP[..2] + DIRECTORY + DEEP[5..];
  }

  lemma SubForm(cvt: seq<byte>, pre: seq<byte>, tail: seq<byte>)
    requires |cvt| == 128 && (tail == [] || tail[0] == 0x2F)
    ensures var path := pre + DIRECTORY + tail;
            && DirForm(cvt, path, |pre|) == SUB_NAME + [if tail == [] then 1 else 0]
            && SegmentAt(path, |pre|).last == |pre| + 3
  {
    hide DirForm, SegmentAt;
    var path := pre + DIRECTORY + tail;
    assert path == pre + DIRECTORY + [] + tail;
    DirFormBytes(cvt, pre, DIRECTORY, [], tail);
    var fn := DirForm(cvt, path, |pre|);
    assert fn == fn[..8] + fn[8..11] + [fn[11]];
  }

  lemma EntryNumbers()
    ensures StartCluster(Vol(), Sub()) == 65541
    ensures StartCluster(Vol(), Image()) == 262659 && LittleEndian(Image()[28..32]) == 395016
  {
    StartClusterBytes(Vol(), Sub());
    StartClusterBytes(Vol(), Image());
    LittleEndian4(Image()[28..32]);
    hide LittleEndian, StartCluster;
  }

  /** " /sub/boot.bin" leads to the file in the directory, which starts in cluster 262659 and has 395016 bytes. */
  lemma DeepPath(cvt: seq<byte>)
    requires |cvt| == 128
    ensures Target(Vol(), cvt, DEEP) == Hit(Image())
    ensures StartCluster(Vol(), Image()) == 262659 && LittleEndian(Image()[28..32]) == 395016
  {
    EntryNumbers();
    VolIsSound();
    hide Vol, LookUp, Resolve, SegmentAt, DirForm, Blanks, PathStart, StartCluster, LittleEndian, BitAnd, Volume.Sound;
    PathStartIs(DEEP, 1);
    DeepForms(cvt);
    RootHas(DirForm(cvt, DEEP, 2));
    SubHas(DirForm(cvt, DEEP, 6));
    ResolveThrough(Vol(), cvt, DEEP, 2, 0);
    ResolveThrough(Vol(), cvt, DEEP, 6, 65541);
    AttributeBits(Image()[11]);
  }

  /** No file "boot.bin" is in the root, where a label and a leftover entry have that name; and a directory is no
      file to open. */
  lemma NoSuchFile(cvt: seq<byte>)
    requires |cvt| == 128
    ensures Target(Vol(), cvt, BOOT_PATH) == Miss(NoFile)
    ensures Target(Vol(), cvt, DIRECTORY) == Miss(NoFile)
  {
    VolIsSound();
    hide Vol, LookUp, Resolve, SegmentAt, DirForm, Blanks, PathStart, BitAnd, Volume.Sound;
    PathStartIs(BOOT_PATH, 0);
    PathStartIs(DIRECTORY, 0);
    assert [] + BOOT_PATH == BOOT_PATH && [] + DIRECTORY + [] == DIRECTORY;
    BootName(cvt, []);
    SubForm(cvt, [], []);
    RootHas(DirForm(cvt, BOOT_PATH, 0));
    RootHas(DirForm(cvt, DIRECTORY, 0));
    ResolveStep(Vol(), cvt, BOOT_PATH, 0, 0);
    ResolveThrough(Vol(), cvt, DIRECTORY, 0, 0);
    AttributeBits(Sub()[11]);
  }
}
