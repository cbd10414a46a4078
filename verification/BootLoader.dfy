/** The bootloader: storing the application in SPI flash, and loading it from there or from a file on an
    SD card. */
module BootLoader {
  import opened Words
  import opened FatVolume
  import opened FatFile
  import opened FatRuns
  import opened FatMount
  import opened FatOpen
  import opened BootImage

  /** The largest image size that the 32-bit byte counter of the copying loops can reach. */
  const MAX_SIZE := 0xFFFF_FFFC

  datatype Device = SpiFlash | SdCard

  datatype Option<T> = None | Some(value: T)

  /** What one call of a device's `stream_get` delivers. */
  datatype Fetch = Fetch(failed: bool, word: Word)

  /** Four flash cells as a word. */
  function WordAt(cells: map<nat, byte>, addr: nat): Word {
    WordOf([Cell(cells, addr), Cell(cells, addr + 1), Cell(cells, addr + 2), Cell(cells, addr + 3)])
  }

  /** A stream of words: a flash that is read from an address on, or an open file. */
  datatype Source = Flash(cells: map<nat, byte>, addr: nat) | File(file: FlatFile, view: View) {

    ghost predicate Sound() {
      File? ==> file.Sound() && view.pos <= file.fsize
    }

    ghost function Step(): (r: (Source, Fetch))
      requires Sound()
      ensures r.0.Sound()
    {
      match this
      case Flash(cells, addr) => (Flash(cells, Wrap(addr + 4)), Fetch(false, WordAt(cells, addr)))
      case File(file, view) =>
        var (after, reply) := file.Step(view, Read(4));
        (File(file, after), Fetch(reply.res != Ok, WordOf(reply.data)))
    }

    /** The stream after `n` words. */
    ghost function Skip(n: nat): (s: Source)
      requires Sound()
      ensures s.Sound()
    {
      if n == 0 then this else Skip(n - 1).Step().0
    }

    /** The `n`-th delivery. */
    ghost function Nth(n: nat): Fetch
      requires Sound()
    {
      Skip(n).Step().1
    }

    /** The first `n` deliveries succeed. */
    ghost predicate Clean(n: nat)
      requires Sound()
    {
      forall j: nat :: j < n ==> !Nth(j).failed
    }

    ghost function Size(): Word
      requires Sound()
    {
      Nth(2).word
    }

    /** The first `n` words after the header. */
    ghost function Payload(n: nat): (ws: seq<Word>)
      requires Sound()
      ensures |ws| == n
    {
      seq<Word>(n, j requires 0 <= j < n => Nth(4 + j).word)
    }

    /** The stream holds an image: signature, size and complemented checksum fit the words that follow. */
    ghost predicate Image()
      requires Sound()
    {
      && Nth(0).word == SIGNATURE && Size() <= MAX_SIZE && Clean(4 + NumWords(Size()))
      && Wrap(Nth(3).word + Sum(Payload(NumWords(Size()))) + 1) == 0
    }

    /** After `k` words of an image of `size` bytes the copying loop is left. */
    ghost predicate Stops(size: Word, k: nat)
      requires Sound()
    {
      !Clean(4 + k) || (size <= MAX_SIZE && k >= NumWords(size))
    }

    /** The stream can be loaded in finite time: it is no image, or small enough, or fails somewhere. */
    ghost predicate Ends()
      requires Sound()
    {
      Nth(0).word == SIGNATURE && Size() > MAX_SIZE ==> exists j: nat :: Nth(j).failed
    }
  }

  /** The wrapping byte counter tells that the size is reached, but only up to the largest size. */
  lemma CounterTells(size: Word, k: nat)
    requires size <= MAX_SIZE ==> k <= NumWords(size)
    ensures Wrap(4 * k) < size <==> size > MAX_SIZE || k < NumWords(size)
  {
    var q, r := 4 * k / M32, 4 * k % M32;
    assert r == 4 * (k - 0x4000_0000 * q);
  }

  /** On a stream that does not end the loop goes on for ever: no word fails, and the counter never reaches
      the size. */
  lemma RunsForEver(s: Source, k: nat)
    requires s.Sound()
    ensures !s.Ends() ==> s.Clean(4 + k) && !s.Stops(s.Size(), k) && Wrap(4 * k) < s.Size()
  {
    hide Source.Nth, Wrap;
    if s.Size() > MAX_SIZE {
      CounterTells(s.Size(), k);
    }
  }

  /** On any other stream it is left after some number of words. */
  lemma EndsWhenStops(s: Source)
    requires s.Sound() && s.Nth(0).word == SIGNATURE
    ensures s.Ends() <==> exists k: nat :: s.Stops(s.Size(), k)
  {
    hide Source.Nth;
    if s.Size() <= MAX_SIZE {
      assert s.Stops(s.Size(), NumWords(s.Size()));
    } else if j: nat :| s.Nth(j).failed {
      assert !s.Clean(4 + j);
      assert s.Stops(s.Size(), j);
    }
  }

  /** Words of a flash lie next to each other. */
  lemma {:induction false} FlashSkip(cells: map<nat, byte>, addr: nat, n: nat)
    ensures Flash(cells, addr).Skip(n) == Flash(cells, if n == 0 then addr else Wrap(addr + 4 * n))
  {
    hide WordAt;
    if n > 0 {
      FlashSkip(cells, addr, n - 1);
      WrapWrap(addr + 4 * (n - 1), 4);
    }
  }

  /** One word of an open file, from the number of bytes that could be read. */
  lemma StepOfRead(file: FlatFile, view: View, k: nat)
    requires file.Sound() && view.pos <= file.fsize && view.isOpen
    requires k <= file.Limit(view.pos, 4) && AllLocated(file.v, file.start, view.pos, k)
    requires k < file.Limit(view.pos, 4) ==> !Located(file.v, file.start, view.pos + k)
    ensures var all := k == file.Limit(view.pos, 4);
            File(file, view).Step() == (File(file, View(all, if all then view.pos + k else 0)),
                                        Fetch(!all, WordOf(Bytes(file.v, file.start, view.pos, k))))
  {
    hide Located, Bytes, WordOf, Pow2, Volume.DataEnd;
    LocatedRunUnique(file, view.pos, file.Limit(view.pos, 4), k);
  }

  lemma StepOfClosed(file: FlatFile, view: View)
    requires file.Sound() && view.pos <= file.fsize && !view.isOpen
    ensures File(file, view).Step() == (File(file, view), Fetch(true, WordOf([])))
  {}

  lemma FileStep(f: FlatFile, p: nat)
    requires f.Sound() && p <= f.fsize && AllLocated(f.v, f.start, 0, f.fsize)
    ensures var m := f.Limit(p, 4);
            File(f, View(true, p)).Step() ==
            (File(f, View(true, p + m)), Fetch(false, WordOf(Bytes(f.v, f.start, p, m))))
  {
    hide Located, Bytes, WordOf, Pow2, Volume.DataEnd;
    var m := f.Limit(p, 4);
    assert AllLocated(f.v, f.start, p, m);
    StepOfRead(f, View(true, p), m);
  }

  /** The words a file that can be read throughout delivers: its bytes, then zeros without end. */
  lemma {:induction false} FileDelivers(f: FlatFile, n: nat)
    requires f.Sound() && AllLocated(f.v, f.start, 0, f.fsize)
    ensures var p := Clip(4 * n, f.fsize);
            && File(f, View(true, 0)).Skip(n) == File(f, View(true, p))
            && File(f, View(true, 0)).Nth(n) == Fetch(false, WordOf(Bytes(f.v, f.start, p, f.Limit(p, 4))))
  {
    hide AllLocated, Bytes, WordOf, FlatFile.Sound, FlatFile.Step, Source.Step;
    if n > 0 {
      FileDelivers(f, n - 1);
      FileStep(f, Clip(4 * (n - 1), f.fsize));
    }
    FileStep(f, Clip(4 * n, f.fsize));
  }

  /** Word `n` of a byte string that is followed by zeros. */
  function WordNo(b: seq<byte>, n: nat): Word {
    WordOf(b[Clip(4 * n, |b|)..Clip(4 * n + 4, |b|)])
  }

  /** The bytes hold an image; missing ones count as zeros. */
  predicate ImageBytes(b: seq<byte>) {
    var size := WordNo(b, 2);
    && WordNo(b, 0) == SIGNATURE && size <= MAX_SIZE
    && Wrap(WordNo(b, 3) + Sum(WordsFrom(b, NumWords(size))) + 1) == 0
  }

  /** The first `n` words behind the header. */
  function WordsFrom(b: seq<byte>, n: nat): seq<Word> {
    seq<Word>(n, j requires 0 <= j < n => WordNo(b, 4 + j))
  }

  /** A readable file is accepted for its bytes alone. A file that was cut off is accepted, too, if the
      words it lacks add up to zero. */
  lemma FileImage(f: FlatFile)
    requires f.Sound() && AllLocated(f.v, f.start, 0, f.fsize)
    ensures File(f, View(true, 0)).Image() <==> ImageBytes(Bytes(f.v, f.start, 0, f.fsize))
  {
    hide AllLocated, Located, Bytes, WordOf, Sum, Source.Nth, Volume.Sound, WordNo;
    var s, b := File(f, View(true, 0)), Bytes(f.v, f.start, 0, f.fsize);
    forall n: nat
      ensures s.Nth(n) == Fetch(false, WordNo(b, n))
    {
      FileDelivers(f, n);
      FileWord(f, n);
    }
    var n := NumWords(s.Size());
    assert s.Payload(n) == WordsFrom(b, n);
  }

  lemma WordNoBytes(b: seq<byte>, n: nat)
    ensures 4 * n + 4 <= |b| ==>
              WordNo(b, n) == (b[4 * n] as int) + 0x100 * (b[4 * n + 1] as int) + 0x10000 * (b[4 * n + 2] as int)
                              + 0x1000000 * (b[4 * n + 3] as int)
    ensures 4 * n + 2 == |b| ==> WordNo(b, n) == (b[4 * n] as int) + 0x100 * (b[4 * n + 1] as int)
    ensures 4 * n >= |b| ==> WordNo(b, n) == 0
  {
    var w := b[Clip(4 * n, |b|)..Clip(4 * n + 4, |b|)];
    if 4 * n + 4 <= |b| {
      LittleEndian4(w);
    } else if 4 * n + 2 == |b| {
      LittleEndian2(w);
    }
  }

  /** Sixteen bytes, the header "NEO!" for four bytes of data that are missing, hold an image. */
  lemma CutOffImage()
    ensures ImageBytes([0x4E, 0x45, 0x4F, 0x21, 0, 0, 0, 0, 4, 0, 0, 0, 0xFF, 0xFF, 0xFF, 0xFF])
  {
    var b: seq<byte> := [0x4E, 0x45, 0x4F, 0x21, 0, 0, 0, 0, 4, 0, 0, 0, 0xFF, 0xFF, 0xFF, 0xFF];
    HeaderOf(b);
    WordNoBytes(b, 4);
    hide WordNo, Wrap;
    assert WordsFrom(b, 1) == [0];
    SumOfTwo(0, 0);
  }

  /** Six bytes of data, the words 1 and 2, are an image with the complement of 3 as check word and with no other. */
  lemma SmallImage(c: byte)
    ensures ImageBytes([0x4E, 0x45, 0x4F, 0x21, 0, 0, 0, 0x80, 6, 0, 0, 0, c, 0xFF, 0xFF, 0xFF, 1, 0, 0, 0, 2, 0])
            <==> c == 0xFC
  {
    var b: seq<byte> :=
      [0x4E, 0x45, 0x4F, 0x21, 0, 0, 0, 0x80, 6, 0, 0, 0, c, 0xFF, 0xFF, 0xFF, 1, 0, 0, 0, 2, 0];
    HeaderOf(b);
    TwoWords(b);
    SumOfTwo(1, 2);
    hide WordNo, WordsFrom, Sum;
  }

  lemma TwoWords(b: seq<byte>)
    requires |b| == 22 && b[16] == 1 && b[17] == b[18] == b[19] == 0 && b[20] == 2 && b[21] == 0
    ensures WordsFrom(b, 2) == [1, 2]
  {
    WordNoBytes(b, 4);
    WordNoBytes(b, 5);
    hide WordNo;
  }

  lemma HeaderOf(b: seq<byte>)
    requires |b| >= 16 && b[0] == 0x4E && b[1] == 0x45 && b[2] == 0x4F && b[3] == 0x21
    requires b[9] == b[10] == b[11] == 0 && b[13] == b[14] == b[15] == 0xFF
    ensures WordNo(b, 0) == SIGNATURE && WordNo(b, 2) == b[8] && WordNo(b, 3) == 0xFFFF_FF00 + b[12] as int
  {
    WordNoBytes(b, 0);
    WordNoBytes(b, 2);
    WordNoBytes(b, 3);
  }

  lemma SumOfTwo(x: Word, y: Word)
    ensures Sum([x]) == x && Sum([x, y]) == Wrap(x as int + y)
  {
    assert [x][..0] == [] && [x, y][..1] == [x];
  }

  lemma FileWord(f: FlatFile, n: nat)
    requires f.Sound()
    ensures var p := Clip(4 * n, f.fsize);
            WordNo(Bytes(f.v, f.start, 0, f.fsize), n) == WordOf(Bytes(f.v, f.start, p, f.Limit(p, 4)))
  {
    hide WordOf, ByteAt;
    var p, b := Clip(4 * n, f.fsize), Bytes(f.v, f.start, 0, f.fsize);
    assert b[p..Clip(4 * n + 4, f.fsize)] == Bytes(f.v, f.start, p, f.Limit(p, 4));
  }

  /** The bootloader's variables, the memory, the flash and the card. */
  class Boot {
    const fs: FatFs
    const disk: Disk
    const cvt: seq<byte>
    const path: seq<byte>
    var exeBase: Word
    var exeSize: Word
    var flashAddr: Word
    var ram: map<nat, Word>
    var flash: map<nat, byte>

    ghost predicate Valid()
      reads this, fs
    {
      |cvt| == 128 && fs.Shape() && exeSize <= MAX_SIZE
    }

    constructor (disk: Disk, cvt: seq<byte>, path: seq<byte>)
      requires |cvt| == 128
      ensures Valid() && exeSize == 0 && fresh(fs)
    {
      fs := new FatFs();
      this.disk, this.cvt, this.path := disk, cvt, path;
      exeBase, exeSize, flashAddr, ram, flash := 0, 0, 0, map[], map[];
    }

    /** What the device delivers is known: a card, if it has a boot record at all, has a consistent one. */
    ghost predicate Known(dev: Device) {
      && |cvt| == 128
      && (dev.SdCard? && BootSector(disk).0 == FatRecord ==>
            BpbOf(disk[BootSector(disk).1]).Consistent(BootSector(disk).1))
    }

    /** The volume on the card, if it can be mounted. */
    ghost function CardVolume(): Option<Volume>
      requires Known(SdCard)
    {
      var (kind, bsect) := BootSector(disk);
      if kind == FatRecord && BpbOf(disk[bsect]).Clusters() != 4085 then Some(Geometry(disk, BpbOf(disk[bsect]), bsect))
      else None
    }

    /** The stream a device delivers once it has been set up. */
    ghost function SetUp(dev: Device, ready: bool): (s: Option<Source>)
      requires Known(dev)
      reads this`flash
      ensures s.Some? ==> s.value.Sound()
    {
      if !ready then None
      else match dev
        case SpiFlash => Some(Flash(flash, FLASH_BASE))
        case SdCard =>
          match CardVolume()
          case None => None
          case Some(vol) =>
            GeometrySound(disk, BpbOf(disk[BootSector(disk).1]), BootSector(disk).1);
            match Target(vol, cvt, path)
            case Miss(_) => None
            case Hit(e) =>
              BytesOfWord(e[28..32]);
              Some(File(FlatFile(vol, StartCluster(vol, e), LittleEndian(e[28..32])), View(true, 0)))
    }

    /** The device can be read. */
    ghost predicate Ready(dev: Device)
      reads fs
    {
      dev.SdCard? ==> fs.mounted && fs.Valid() && fs.vol.Sound() && fs.fsize < M32
    }

    /** The stream as it stands. */
    ghost function Stream(dev: Device): (s: Source)
      requires Ready(dev)
      reads this`flash, this`flashAddr, fs
      ensures s.Sound()
    {
      match dev
      case SpiFlash => Flash(flash, flashAddr)
      case SdCard => File(FlatFile(fs.vol, fs.orgClust, fs.fsize), ViewOf(fs))
    }

    /** Set up a device; `ready` says whether its hardware answers. */
    method DevInit(dev: Device, ready: bool) returns (failed: bool)
      requires Valid()
      modifies this`flashAddr, fs
      ensures Valid()
      ensures Known(dev) ==>
                && (failed <==> SetUp(dev, ready).None?)
                && (!failed ==> Ready(dev) && Stream(dev) == SetUp(dev, ready).value)
    {
      hide Pow2, Target, StartCluster, LittleEndian, Geometry, WrappedGeometry;
      match dev
      case SpiFlash =>
        flashAddr := FLASH_BASE;
        return !ready;
      case SdCard =>
        var res := PfMount(fs, disk, ready);
        if res != Ok {
          return true;
        }
        if Known(dev) {
          GeometrySound(disk, BpbOf(disk[BootSector(disk).1]), BootSector(disk).1);
        }
        res := PfOpen(fs, cvt, path);
        return res != Ok;
    }

    method SpiStreamGet() returns (word: Word)
      modifies this`flashAddr
      ensures word == WordAt(flash, old(flashAddr)) && flashAddr == Wrap(old(flashAddr) + 4)
    {
      hide Cell;
      var tmp := new byte[4];
      for i := 0 to 4
        invariant flashAddr == old(flashAddr)
        invariant forall k :: 0 <= k < i ==> tmp[k] == Cell(flash, flashAddr + k)
      {
        tmp[i] := Cell(flash, flashAddr + i);
      }
      BytesOfWord(tmp[0..4]);
      word := LdDword(tmp, 0);
      assert tmp[0..4] == [Cell(flash, flashAddr), Cell(flash, flashAddr + 1),
                           Cell(flash, flashAddr + 2), Cell(flash, flashAddr + 3)];
      flashAddr := Wrap(flashAddr + 4);
    }

    /** The next word of the file; past its end zeros are delivered without an error. */
    method SdStreamGet() returns (f: Fetch)
      requires fs.Shape()
      modifies fs`isOpen, fs`fptr, fs`currClust, fs`dsect
      ensures fs.Shape()
      ensures old(Ready(SdCard)) ==> Ready(SdCard) && (Stream(SdCard), f) == old(Stream(SdCard)).Step()
    {
      hide Located, Bytes, Pow2, LittleEndian, Cursor, Volume.Sound, Source.Step, FlatFile.Step;
      ghost var ready := Ready(SdCard);
      ghost var s := if ready then Stream(SdCard) else Flash(map[], 0);
      var tmp := new byte[4](_ => 0);
      assert tmp[..] == seq<byte>(4, _ => 0);
      var res, len := fs.PfRead(tmp, 4);
      if ready {
        if s.view.isOpen {
          StepOfRead(s.file, s.view, len);
        } else {
          StepOfClosed(s.file, s.view);
        }
      }
      assert tmp[..] == tmp[..len] + tmp[len..] && tmp[len..] == seq<byte>(4 - len, _ => 0);
      ShortWord(tmp[..len], 4 - len);
      var word := LdDword(tmp, 0);
      assert tmp[0..4] == tmp[..];
      f := Fetch(res != Ok, word);
    }

    method StreamGet(dev: Device) returns (f: Fetch)
      requires Valid()
      modifies this`flashAddr, fs`isOpen, fs`fptr, fs`currClust, fs`dsect
      ensures Valid()
      ensures old(Ready(dev)) ==> Ready(dev) && (Stream(dev), f) == old(Stream(dev)).Step()
    {
      match dev
      case SpiFlash =>
        var word := SpiStreamGet();
        f := Fetch(false, word);
      case SdCard =>
        f := SdStreamGet();
    }

    method GetHeader(dev: Device) returns (signature: Word, base: Word, size: Word, check: Word, bad: bool)
      requires Valid()
      modifies this`flashAddr, fs`isOpen, fs`fptr, fs`currClust, fs`dsect
      ensures Valid()
      ensures old(Ready(dev)) ==>
                var s := old(Stream(dev));
                && Ready(dev) && Stream(dev) == s.Skip(4) && (bad <==> !s.Clean(4))
                && signature == s.Nth(0).word && base == s.Nth(1).word
                && size == s.Nth(2).word && check == s.Nth(3).word
    {
      hide Source.Step, Source.Skip, Source.Nth, Source.Clean, Ready, Stream;
      if Ready(dev) {
        Header(Stream(dev));
      }
      var f0 := StreamGet(dev);
      var f1 := StreamGet(dev);
      var f2 := StreamGet(dev);
      var f3 := StreamGet(dev);
      signature, base, size, check := f0.word, f1.word, f2.word, f3.word;
      bad := f0.failed || f1.failed || f2.failed || f3.failed;
    }

    /** The device stands behind the header and `k` words of the stream `s`; `failed` tells whether one of
        them failed. */
    ghost predicate Behind(dev: Device, s: Source, k: nat, failed: bool)
      reads this`flash, this`flashAddr, fs
    {
      s.Sound() && Ready(dev) && Stream(dev) == s.Skip(4 + k) && (failed <==> !s.Clean(4 + k))
    }

    /** The next word of the stream, behind `k` others. */
    method NextWord(dev: Device, ghost s: Source, ghost k: nat, ghost failed: bool) returns (f: Fetch)
      requires Valid()
      modifies this`flashAddr, fs`isOpen, fs`fptr, fs`currClust, fs`dsect
      ensures Valid()
      ensures old(Behind(dev, s, k, failed)) ==> Behind(dev, s, k + 1, failed || f.failed) && f == s.Nth(4 + k)
    {
      hide Source.Step, Source.Skip, Source.Nth, Source.Clean, Ready, Stream;
      if Behind(dev, s, k, failed) {
        NextFetch(s, 4 + k);
      }
      f := StreamGet(dev);
    }

    /** Copy the words behind the header to memory until `size` bytes are copied or a word fails. Whoever
        looks after `passes` passes of the loop may find it still running. */
    method CopyWords(dev: Device, ghost s: Source, headerFailed: bool, size: Word, check: Word, passes: nat)
      returns (running: bool, bad: bool, checksum: Word, k: nat, ghost ws: seq<Word>)
      requires Valid()
      modifies this`flashAddr, this`ram, fs`isOpen, fs`fptr, fs`currClust, fs`dsect
      ensures Valid()
      ensures k == |ws| <= passes && checksum == Wrap(check + Sum(ws)) && ram == Stored(old(ram), exeBase, ws)
      ensures if running then !bad && k == passes else bad || (size <= MAX_SIZE && k == NumWords(size))
      ensures old(Behind(dev, s, 0, headerFailed)) ==>
                && ws == s.Payload(k) && (bad <==> !s.Clean(4 + k))
                && (running <==> !s.Stops(size, passes)) && (!running ==> s.Stops(size, k))
                && forall n: nat :: n < k ==> !s.Stops(size, n)
    {
      hide Stored, Sum, Source.Skip, Source.Nth, Source.Clean, Source.Payload, Boot.Behind, Slot, Wrap;
      ghost var known := Behind(dev, s, 0, headerFailed);
      bad, checksum, k, ws := headerFailed, check, 0, [];
      NoWordsYet(ram, exeBase, check);
      if known {
        BehindIsClean(dev, s, 0, bad);
        NoPayload(s);
      }
      var i: Word := 0;
      CounterTells(size, 0);
      while i < size && k < passes
        invariant Valid() && k == |ws| <= passes
        invariant i == Wrap(4 * k) && (size <= MAX_SIZE ==> k <= NumWords(size))
        invariant i < size <==> size > MAX_SIZE || k < NumWords(size)
        invariant checksum == Wrap(check + Sum(ws)) && ram == Stored(old(ram), exeBase, ws)
        invariant known ==> Behind(dev, s, k, bad) && (bad <==> !s.Clean(4 + k)) && ws == s.Payload(k)
        invariant known ==> forall n: nat :: n < k ==> !s.Stops(size, n)
        decreases passes - k
      {
        if bad {
          break;
        }
        CounterTells(size, k + 1);
        var f := NextWord(dev, s, k, bad);
        bad := bad || f.failed;
        if known {
          BehindIsClean(dev, s, k + 1, bad);
          NextPayload(s, k);
        }
        NextStored(old(ram), exeBase, ws, f.word, check);
        checksum := Wrap(checksum + f.word);
        ram := ram[Wrap(exeBase + i) := f.word];
        SlotOfCounter(exeBase, k);
        i := Wrap(i + 4);
        WrapWrap(4 * k, 4);
        k, ws := k + 1, ws + [f.word];
      }
      running := i < size && !bad;
      if known {
        CleanSoFar(s, 4 + passes, 4 + k);
      }
    }

    lemma BehindIsClean(dev: Device, s: Source, k: nat, failed: bool)
      requires Behind(dev, s, k, failed)
      ensures s.Sound() && (failed <==> !s.Clean(4 + k))
    {}

    /** Load an application: the words `ws` of it reach the memory, all of them if it is accepted. The loop
        may still be running after `passes` passes. */
    method AppLoad(dev: Device, ready: bool, passes: nat)
      returns (running: bool, rc: int, copied: nat, ghost ws: seq<Word>)
      requires Valid()
      modifies this`exeBase, this`exeSize, this`flashAddr, this`ram, fs
      ensures Valid()
      ensures copied == |ws| <= passes && (copied > 0 ==> ram == Stored(old(ram), exeBase, ws))
      ensures copied == 0 ==> ram == old(ram)
      ensures if running || rc != 0 then exeSize == 0 else copied == NumWords(exeSize)
      ensures Known(dev) ==>
                && (running <==>
                      SetUp(dev, ready).Some? &&
                      var s := SetUp(dev, ready).value; s.Nth(0).word == SIGNATURE && !s.Stops(s.Size(), passes))
                && (!running ==> (rc == 0 <==> SetUp(dev, ready).Some? && SetUp(dev, ready).value.Image()))
                && (!running && rc == 0 ==>
                      var s := SetUp(dev, ready).value; exeBase == s.Nth(1).word && exeSize == s.Size())
                && (if SetUp(dev, ready).Some? then ws == SetUp(dev, ready).value.Payload(copied) else copied == 0)
    {
      hide Stored, Sum, Source.Step, Source.Skip, Source.Nth, Source.Clean, Source.Payload;
      hide Boot.SetUp, Ready, Stream, Known, Wrap;
      exeSize, copied, running, ws := 0, 0, false, [];
      ghost var before := ram;
      var failed := DevInit(dev, ready);
      ghost var s := if Known(dev) && !failed then SetUp(dev, ready).value else Flash(map[], 0);
      NoPayload(s);
      if failed {
        return false, 1, 0, [];
      }
      var signature, size, check, bad;
      signature, exeBase, size, check, bad := GetHeader(dev);
      if signature != SIGNATURE {
        return false, 1, 0, [];
      }
      NoWordsYet(before, exeBase, check);
      var checksum;
      running, bad, checksum, copied, ws := CopyWords(dev, s, bad, size, check, passes);
      if running {
        return true, 1, copied, ws;
      }
      StoppedAt(s, size, copied);
      if bad {
        return false, 1, copied, ws;
      }
      WrapWrap(check + Sum(ws), 1);
      if Wrap(checksum as int + 1) != 0 {
        return false, 1, copied, ws;
      }
      exeSize := size;
      rc := 0;
    }

    method SpiStreamPut(word: Word)
      modifies this`flash, this`flashAddr
      ensures flash == Programmed(old(flash), old(flashAddr), WordBytes(word))
      ensures flashAddr == Wrap(old(flashAddr) + 4)
    {
      hide Pin, And8, Wrap;
      var tmp := WordBytes(word);
      ghost var addr: nat := flashAddr;
      WrapSmall(addr);
      for i := 0 to 4
        invariant flash == Programmed(old(flash), addr, tmp[..i]) && flashAddr == Wrap(addr + i)
      {
        assert tmp[..i + 1][..i] == tmp[..i];
        SameCell(addr + i, 0);
        WrapWrap(addr + i, 1);
        flash := ProgramCell(flash, flashAddr, tmp[i]);
        flashAddr := Wrap(flashAddr + 1);
      }
      assert tmp[..4] == tmp;
    }

    /** Erase the sectors for the data of the image; its header is not counted. */
    method SpiErase()
      modifies this`flash, this`flashAddr
      ensures flash == Erased(old(flash), EraseCount(exeSize)) && flashAddr == FLASH_BASE
    {
      hide Pin, SectorAt, Wrap;
      flashAddr := FLASH_BASE;
      WrapSmall(FLASH_BASE);
      var sectors := exeSize / SECTOR_SIZE + 1;
      for i := 0 to sectors
        invariant flash == Erased(old(flash), i) && flashAddr == Wrap(FLASH_BASE + SECTOR_SIZE * i)
      {
        SectorWraps(FLASH_BASE + SECTOR_SIZE * i);
        WrapWrap(FLASH_BASE + SECTOR_SIZE * i, SECTOR_SIZE);
        flash := EraseSector(flash, flashAddr);
        flashAddr := Wrap(flashAddr + SECTOR_SIZE);
      }
      flashAddr := FLASH_BASE;
    }

    /** Store the application in the flash; `ready` says whether the flash answers, `confirm` whether the
        user agrees. */
    method AppStore(ready: bool, confirm: bool) returns (rc: int)
      requires Valid()
      modifies this`flash, this`flashAddr
      ensures rc == 0 <==> exeSize != 0 && ready && confirm
      ensures rc != 0 ==> flash == old(flash)
      ensures rc == 0 ==> flash == Flashed(old(flash), exeBase, exeSize, WordsIn(ram, exeBase, NumWords(exeSize)))
    {
      hide Programmed, Erased, BytesOf, Sum, Slot;
      if exeSize == 0 {
        return 1;
      }
      flashAddr := FLASH_BASE;
      if !ready || !confirm {
        return 1;
      }
      var backup := flashAddr;
      SpiErase();
      flashAddr := Wrap(flashAddr + HEADER_SIZE);
      var sum := PutWords();
      flashAddr := backup;
      PutHeader([SIGNATURE, exeBase, exeSize, M32 - 1 - sum]);
      rc := 0;
    }

    /** Copy the words of the application to the flash and add them up. */
    method PutWords() returns (sum: Word)
      requires Valid()
      modifies this`flash, this`flashAddr
      ensures var ws := WordsIn(ram, exeBase, NumWords(exeSize));
              sum == Sum(ws) && flash == Programmed(old(flash), old(flashAddr), BytesOf(ws))
    {
      hide Programmed, BytesOf, Sum, Slot, WordBytes, Wrap;
      sum := 0;
      var i: Word := 0;
      ghost var k: nat := 0;
      ghost var addr: nat := flashAddr;
      ghost var ws := WordsIn(ram, exeBase, NumWords(exeSize));
      NoWords(flash, addr);
      WrapSmall(addr);
      assert ws[..0] == [];
      while i < exeSize
        invariant i == 4 * k && k <= |ws|
        invariant sum == Sum(ws[..k]) && flash == Programmed(old(flash), addr, BytesOf(ws[..k]))
        invariant flashAddr == Wrap(addr + 4 * k)
        decreases exeSize - i
      {
        var tmp := Fetched(ram, Wrap(exeBase + i));
        WrapSmall(4 * k);
        SlotOfCounter(exeBase, k);
        assert tmp == ws[k] && ws[..k + 1] == ws[..k] + [tmp];
        SumNext(ws[..k], tmp);
        PutNext(old(flash), addr, ws, k);
        WrapWrap(addr + 4 * k, 4);
        sum := Wrap(sum + tmp);
        SpiStreamPut(tmp);
        i := i + 4;
        k := k + 1;
      }
      assert ws[..k] == ws;
    }

    method PutHeader(header: seq<Word>)
      requires |header| == 4 && flashAddr == FLASH_BASE
      modifies this`flash, this`flashAddr
      ensures flash == Programmed(old(flash), FLASH_BASE, BytesOf(header))
    {
      hide Programmed, WordBytes, BytesOf;
      NoWords(flash, FLASH_BASE);
      assert header[..0] == [] && header[..4] == header;
      PutNext(flash, FLASH_BASE, header, 0);
      PutNext(flash, FLASH_BASE, header, 1);
      PutNext(flash, FLASH_BASE, header, 2);
      PutNext(flash, FLASH_BASE, header, 3);
      SpiStreamPut(header[0]);
      SpiStreamPut(header[1]);
      SpiStreamPut(header[2]);
      SpiStreamPut(header[3]);
    }

    /** Store the application and load it again. It comes back whole if and only if the flash can be read
        back as what was stored; for an image no larger than the flash, that is if no old cell behind the
        erased sectors spoils it. */
    method StoreThenLoad() returns (rc: int)
      requires Valid() && exeSize != 0
      modifies this, fs
      ensures var ws := WordsIn(old(ram), old(exeBase), NumWords(old(exeSize)));
              && (Holds(flash, ImageWords(old(exeBase), old(exeSize), ws)) <==>
                  rc == 0 && exeBase == old(exeBase) && exeSize == old(exeSize)
                  && forall a: nat :: Fetched(ram, a) == Fetched(old(ram), a))
              && flash == Flashed(old(flash), old(exeBase), old(exeSize), ws)
              && (HEADER_SIZE + 4 * |ws| <= FLASH_SIZE ==>
                    (Holds(flash, ImageWords(old(exeBase), old(exeSize), ws)) <==>
                     Fits(old(flash), old(exeSize), BytesOf(ws))))
    {
      hide Stored, Sum, Source.Step, Source.Skip, Source.Nth, Flashed, Fits, Slot, BytesOf, Holds, ImageWords;
      ghost var cells, before, base, size := flash, ram, exeBase, exeSize;
      ghost var ws := WordsIn(ram, exeBase, NumWords(exeSize));
      rc := AppStore(true, true);
      ghost var s := Flash(flash, FLASH_BASE);
      StoredImage(flash, base, size, ws);
      if HEADER_SIZE + 4 * |ws| <= FLASH_SIZE {
        HoldsIffFits(cells, base, size, ws);
      }
      var running, copied;
      ghost var vs;
      running, rc, copied, vs := AppLoad(SpiFlash, true, NumWords(exeSize));
      if rc == 0 && exeSize == size {
        SameMemory(before, base, ws, vs);
      }
    }
  }

  lemma NextFetch(s: Source, n: nat)
    requires s.Sound()
    ensures (s.Skip(n + 1), s.Nth(n)) == s.Skip(n).Step()
    ensures s.Clean(n + 1) <==> s.Clean(n) && !s.Nth(n).failed
  {
    hide Source.Step;
  }

  lemma Header(s: Source)
    requires s.Sound()
    ensures s.Skip(0) == s
    ensures (s.Skip(1), s.Nth(0)) == s.Skip(0).Step() && (s.Skip(2), s.Nth(1)) == s.Skip(1).Step()
    ensures (s.Skip(3), s.Nth(2)) == s.Skip(2).Step() && (s.Skip(4), s.Nth(3)) == s.Skip(3).Step()
    ensures s.Clean(4) <==> !s.Nth(0).failed && !s.Nth(1).failed && !s.Nth(2).failed && !s.Nth(3).failed
  {
    assert s.Skip(0) == s && s.Clean(0);
    hide Source.Step, Source.Skip, Source.Nth, Source.Clean;
    NextFetch(s, 0);
    NextFetch(s, 1);
    NextFetch(s, 2);
    NextFetch(s, 3);
  }

  lemma CleanSoFar(s: Source, m: nat, n: nat)
    requires s.Sound()
    ensures s.Clean(m) && n < m ==> !s.Nth(n).failed
    ensures s.Clean(m) && n <= m ==> s.Clean(n)
  {
    hide Source.Nth;
  }

  lemma NoPayload(s: Source)
    requires s.Sound()
    ensures s.Payload(0) == []
  {}

  lemma NoWordsYet(ram: map<nat, Word>, base: Word, check: Word)
    ensures Wrap(check + Sum([])) == check && Wrap(4 * 0) == 0 && Stored(ram, base, []) == ram
  {}

  /** Where the loop is left for the first time, all words are read or the last one failed. */
  lemma StoppedAt(s: Source, size: Word, k: nat)
    requires s.Sound()
    ensures s.Stops(size, k) && (forall n: nat :: n < k ==> !s.Stops(size, n)) ==>
              && (s.Clean(4 + k) ==> size <= MAX_SIZE && k == NumWords(size))
              && (!s.Clean(4 + k) && size <= MAX_SIZE ==> !s.Clean(4 + NumWords(size)))
  {
    hide Source.Nth;
    CleanSoFar(s, 4 + NumWords(size), 4 + k);
    var stops := s.Stops(size, NumWords(size));
  }

  lemma SlotOfCounter(base: Word, k: nat)
    ensures Wrap(base + Wrap(4 * k)) == Slot(base, k)
  {
    WrapWrap(4 * k, base);
  }

  lemma NextPayload(s: Source, k: nat)
    requires s.Sound()
    ensures s.Payload(k + 1) == s.Payload(k) + [s.Nth(4 + k).word]
  {
    hide Source.Nth;
  }

  lemma NextStored(ram: map<nat, Word>, base: Word, ws: seq<Word>, w: Word, check: Word)
    ensures Stored(ram, base, ws + [w]) == Stored(ram, base, ws)[Slot(base, |ws|) := w]
    ensures Wrap(Wrap(check + Sum(ws)) + w) == Wrap(check + Sum(ws + [w]))
  {
    hide Slot, Stored, Sum, Wrap;
    StoredNext(ram, base, ws, w);
    SumNext(ws, w);
    WrapWrap(check + Sum(ws), w);
    WrapWrap(Sum(ws) + w, check);
  }

  lemma NoWords(cells: map<nat, byte>, addr: nat)
    ensures Sum([]) == 0 && BytesOf([]) == [] && Programmed(cells, addr, []) == cells
  {}

  /** One word more in the flash. */
  lemma PutNext(cells: map<nat, byte>, addr: nat, ws: seq<Word>, n: nat)
    requires n < |ws|
    ensures Programmed(cells, addr, BytesOf(ws[..n + 1])) ==
            Programmed(Programmed(cells, addr, BytesOf(ws[..n])), Wrap(addr + 4 * n), WordBytes(ws[n]))
  {
    hide WordBytes, BytesOf, Programmed;
    assert ws[..n + 1] == ws[..n] + [ws[n]];
    BytesOfNext(ws[..n], ws[n]);
    ProgrammedAppend(cells, addr, BytesOf(ws[..n]), WordBytes(ws[n]));
    ProgrammedWraps(Programmed(cells, addr, BytesOf(ws[..n])), addr + 4 * n, WordBytes(ws[n]));
  }

  /** Storing words over memory leaves it unchanged exactly when they are the words already there. */
  lemma SameMemory(ram: map<nat, Word>, base: Word, ws: seq<Word>, vs: seq<Word>)
    requires |vs| == |ws| && 4 * |ws| <= M32 && ws == WordsIn(ram, base, |ws|)
    ensures vs == ws <==> forall a: nat :: Fetched(Stored(ram, base, vs), a) == Fetched(ram, a)
  {
    hide Slot, Stored, Fetched;
    StoredAt(ram, base, vs);
    if forall a: nat :: Fetched(Stored(ram, base, vs), a) == Fetched(ram, a) {
      forall j | 0 <= j < |ws|
        ensures vs[j] == ws[j]
      {
        assert Fetched(Stored(ram, base, vs), Slot(base, j)) == vs[j];
      }
    }
    if vs == ws {
      forall a: nat
        ensures Fetched(Stored(ram, base, vs), a) == Fetched(ram, a)
      {
        if j: nat :| j < |ws| && a == Slot(base, j) {
          assert Fetched(Stored(ram, base, vs), Slot(base, j)) == vs[j];
        }
      }
    }
  }

  lemma WordAtIs(cells: map<nat, byte>, a: nat, w: Word)
    ensures WordAt(cells, a) == w <==>
            forall o :: a <= o < a + 4 ==> Cell(cells, o) == WordBytes(w)[o - a]
  {
    hide Cell, LittleEndian, WordBytes;
    var b := [Cell(cells, a), Cell(cells, a + 1), Cell(cells, a + 2), Cell(cells, a + 3)];
    BytesOfWord(b);
    WordOfBytes(w);
    if b == WordBytes(w) {
      forall o | a <= o < a + 4
        ensures Cell(cells, o) == WordBytes(w)[o - a]
      {
        assert Cell(cells, o) == b[o - a];
      }
    }
    if forall o :: a <= o < a + 4 ==> Cell(cells, o) == WordBytes(w)[o - a] {
      assert Cell(cells, a) == WordBytes(w)[0] && Cell(cells, a + 1) == WordBytes(w)[1];
      assert Cell(cells, a + 2) == WordBytes(w)[2] && Cell(cells, a + 3) == WordBytes(w)[3];
      assert b == WordBytes(w);
    }
  }

  /** Word `j` of a flash from its image address on. */
  lemma NthOfFlash(cells: map<nat, byte>, j: nat)
    ensures Flash(cells, FLASH_BASE).Nth(j) == Fetch(false, WordAt(cells, FLASH_BASE + 4 * j))
  {
    hide WordAt, Wrap;
    FlashSkip(cells, FLASH_BASE, j);
    WordWraps(cells, FLASH_BASE + 4 * j);
  }

  lemma WordWraps(cells: map<nat, byte>, a: nat)
    ensures WordAt(cells, Wrap(a)) == WordAt(cells, a)
  {
    hide Pin, Wrap;
    SameCell(a, 0);
    SameCell(a, 1);
    SameCell(a, 2);
    SameCell(a, 3);
  }

  /** An erased flash in which only the signature was written. */
  function SignatureOnly(): map<nat, byte> {
    Programmed(map[], FLASH_BASE, WordBytes(SIGNATURE))
  }

  lemma SignatureCell(o: nat)
    requires o < 12
    ensures Cell(SignatureOnly(), FLASH_BASE + o) == if o < 4 then WordBytes(SIGNATURE)[o] else 0xFF
  {
    hide Programmed, And8, Cell, WordBytes;
    ErasedCell(FLASH_BASE + o);
    ProgrammedAt(map[], FLASH_BASE, WordBytes(SIGNATURE), 12, o);
    if o < 4 {
      ProgramErased(WordBytes(SIGNATURE)[o]);
    }
  }

  lemma SignatureWords()
    ensures WordAt(SignatureOnly(), FLASH_BASE) == SIGNATURE && WordAt(SignatureOnly(), FLASH_BASE + 8) == 0xFFFF_FFFF
  {
    hide WordAt, Cell, WordBytes, SignatureOnly;
    AllOnes();
    forall c | FLASH_BASE <= c < FLASH_BASE + 12
      ensures Cell(SignatureOnly(), c) == if c < FLASH_BASE + 4 then WordBytes(SIGNATURE)[c - FLASH_BASE] else 0xFF
    {
      SignatureCell(c - FLASH_BASE);
    }
    WordAtIs(SignatureOnly(), FLASH_BASE, SIGNATURE);
    WordAtIs(SignatureOnly(), FLASH_BASE + 8, 0xFFFF_FFFF);
  }

  /** It has the signature of an image and a size of 2^32 - 1, no word fails, and loading it goes on for
      ever. */
  lemma EndlessFlash(k: nat)
    ensures var s := Flash(SignatureOnly(), FLASH_BASE);
            s.Nth(0).word == SIGNATURE && s.Size() > MAX_SIZE && !s.Ends() && !s.Stops(s.Size(), k)
  {
    hide Source.Nth, WordAt, SignatureOnly, Source.Stops;
    var s := Flash(SignatureOnly(), FLASH_BASE);
    SignatureWords();
    NthOfFlash(SignatureOnly(), 0);
    NthOfFlash(SignatureOnly(), 2);
    forall j: nat
      ensures !s.Nth(j).failed
    {
      NeverFails(SignatureOnly(), FLASH_BASE, j);
    }
    RunsForEver(s, k);
  }

  lemma ErasedCell(c: nat)
    ensures Cell(map[], c) == 0xFF
  {}

  lemma AllOnes()
    ensures WordBytes(0xFFFF_FFFF) == [0xFF, 0xFF, 0xFF, 0xFF]
  {}

  lemma NeverFails(cells: map<nat, byte>, addr: nat, j: nat)
    ensures !Flash(cells, addr).Nth(j).failed
  {
    hide WordAt;
    FlashSkip(cells, addr, j);
  }

  /** A word is read where the flash holds its bytes. */
  lemma WordHolds(cells: map<nat, byte>, all: seq<Word>, j: nat)
    requires j < |all|
    ensures Flash(cells, FLASH_BASE).Nth(j).word == all[j] <==>
            forall o :: 4 * j <= o < 4 * j + 4 ==> Cell(cells, FLASH_BASE + o) == BytesOf(all)[o]
  {
    hide BytesOf, Cell, WordBytes, WordAt, Source.Nth;
    var a, b := FLASH_BASE + 4 * j, BytesOf(all);
    BytesOfAt(all, j);
    forall o | 4 * j <= o < 4 * j + 4
      ensures b[o] == WordBytes(all[j])[o - 4 * j]
    {
      assert b[4 * j..4 * j + 4][o - 4 * j] == b[o];
    }
    WordAtIs(cells, a, all[j]);
    NthOfFlash(cells, j);
    if forall c :: a <= c < a + 4 ==> Cell(cells, c) == WordBytes(all[j])[c - a] {
      forall o | 4 * j <= o < 4 * j + 4
        ensures Cell(cells, FLASH_BASE + o) == b[o]
      {
        assert Cell(cells, FLASH_BASE + o) == WordBytes(all[j])[FLASH_BASE + o - a];
      }
    }
    if forall o :: 4 * j <= o < 4 * j + 4 ==> Cell(cells, FLASH_BASE + o) == b[o] {
      forall c | a <= c < a + 4
        ensures Cell(cells, c) == WordBytes(all[j])[c - a]
      {
        var o := c - FLASH_BASE;
        assert Cell(cells, FLASH_BASE + o) == b[o];
      }
    }
  }

  /** The stream from the flash starts with exactly the words that the flash holds. */
  lemma StreamHolds(cells: map<nat, byte>, all: seq<Word>)
    ensures Holds(cells, all) <==>
            forall j: nat :: j < |all| ==> Flash(cells, FLASH_BASE).Nth(j).word == all[j]
  {
    hide BytesOf, Cell, Source.Nth;
    forall j: nat | j < |all|
      ensures Flash(cells, FLASH_BASE).Nth(j).word == all[j] <==>
              forall o :: 4 * j <= o < 4 * j + 4 ==> Cell(cells, FLASH_BASE + o) == BytesOf(all)[o]
    {
      WordHolds(cells, all, j);
    }
    if forall j: nat :: j < |all| ==> Flash(cells, FLASH_BASE).Nth(j).word == all[j] {
      forall o | 0 <= o < 4 * |all|
        ensures Cell(cells, FLASH_BASE + o) == BytesOf(all)[o]
      {
        assert Flash(cells, FLASH_BASE).Nth(o / 4).word == all[o / 4];
      }
    }
  }

  /** Words of a stream that starts with an image. */
  lemma ImageStream(s: Source, base: Word, size: Word, ws: seq<Word>)
    requires s.Sound()
    ensures var all := ImageWords(base, size, ws);
            (forall j: nat :: j < |all| ==> s.Nth(j).word == all[j]) <==>
              && s.Nth(0).word == SIGNATURE && s.Nth(1).word == base && s.Size() == size
              && s.Nth(3).word == M32 - 1 - Sum(ws) && s.Payload(|ws|) == ws
  {
    hide Sum, Source.Nth;
    var all := ImageWords(base, size, ws);
    if forall j: nat :: j < |all| ==> s.Nth(j).word == all[j] {
      assert s.Nth(0).word == all[0] && s.Nth(1).word == all[1] && s.Nth(2).word == all[2] && s.Nth(3).word == all[3];
      forall j: nat | j < |ws|
        ensures s.Nth(4 + j).word == ws[j]
      {
        assert s.Nth(4 + j).word == all[4 + j];
      }
    }
    if s.Payload(|ws|) == ws {
      forall j: nat | 4 <= j < |all|
        ensures s.Nth(j).word == all[j]
      {
        assert s.Payload(|ws|)[j - 4] == ws[j - 4];
      }
    }
  }

  /** The flash holds an image exactly if its stream has the header and the data of it; then it is accepted. */
  lemma StoredImage(cells: map<nat, byte>, base: Word, size: Word, ws: seq<Word>)
    requires |ws| == NumWords(size)
    ensures var s := Flash(cells, FLASH_BASE);
            && (Holds(cells, ImageWords(base, size, ws)) <==>
                  && s.Nth(0).word == SIGNATURE && s.Nth(1).word == base && s.Size() == size
                  && s.Nth(3).word == M32 - 1 - Sum(ws) && s.Payload(|ws|) == ws)
            && (Holds(cells, ImageWords(base, size, ws)) && size <= MAX_SIZE ==> s.Image())
            && (s.Image() && s.Size() == size && s.Payload(|ws|) == ws ==> s.Nth(3).word == M32 - 1 - Sum(ws))
  {
    hide Holds, Sum, Source.Nth, Source.Payload, ImageWords;
    var s := Flash(cells, FLASH_BASE);
    StreamHolds(cells, ImageWords(base, size, ws));
    ImageStream(s, base, size, ws);
    forall j: nat
      ensures !s.Nth(j).failed
    {
      NeverFails(cells, FLASH_BASE, j);
    }
  }
}
