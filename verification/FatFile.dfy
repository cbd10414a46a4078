/** Reading and seeking in the open file: a lazily maintained cursor over a cluster chain. */
module FatFile {
  import opened Words
  import opened FatVolume

  datatype FResult = Ok | DiskErr | NotReady | NoFile | NotOpened | NotEnabled | NoFilesystem

  // ---- the file as a sequence of bytes along its cluster chain

  /** The `i`-th cluster of the chain that starts at `start`; 1 from the first broken link on. */
  ghost function Chain(v: Volume, start: nat, i: nat): nat {
    if i == 0 then start else v.Link(Chain(v, start, i - 1))
  }

  lemma {:induction false} ChainPrefixValid(v: Volume, start: nat, i: nat, j: nat)
    requires i <= j && v.ValidClust(Chain(v, start, j))
    ensures v.ValidClust(Chain(v, start, i))
  {
    if i < j {
      ChainPrefixValid(v, start, i, j - 1);
    }
  }

  /** The cluster of the file that holds byte `p`. */
  function ClusterNo(v: Volume, p: nat): nat
    requires v.csize > 0
  {
    p / 512 / v.csize
  }

  /** The sector, inside its cluster, that holds byte `p`. */
  function SectorNo(v: Volume, p: nat): nat
    requires v.csize > 0
  {
    p / 512 % v.csize
  }

  ghost function ByteSector(v: Volume, start: nat, p: nat): nat
    requires v.csize > 0 && v.ValidClust(Chain(v, start, ClusterNo(v, p))) && v.nFatent <= M32
  {
    v.Clust2Sect(Chain(v, start, ClusterNo(v, p))) + SectorNo(v, p)
  }

  /** Byte `p` of the file can be read: its cluster is on the chain and its sector is readable. */
  ghost predicate Located(v: Volume, start: nat, p: nat)
    requires v.Sound()
  {
    v.ValidClust(Chain(v, start, ClusterNo(v, p))) && ByteSector(v, start, p) in v.disk
  }

  ghost function ByteAt(v: Volume, start: nat, p: nat): byte
    requires v.Sound()
  {
    if Located(v, start, p) then v.disk[ByteSector(v, start, p)][p % 512] else 0
  }

  /** The `n` bytes of the file from position `p` on. */
  ghost function Bytes(v: Volume, start: nat, p: nat, n: nat): (s: seq<byte>)
    requires v.Sound()
    ensures |s| == n
  {
    seq<byte>(n, i requires 0 <= i < n => ByteAt(v, start, p + i))
  }

  ghost predicate AllLocated(v: Volume, start: nat, p: nat, n: nat)
    requires v.Sound()
  {
    forall i :: p <= i < p + n ==> Located(v, start, i)
  }

  // ---- arithmetic of positions

  lemma Decompose(v: Volume, p: nat)
    requires v.csize > 0
    ensures ClusterNo(v, p) == p / v.Bcs()
    ensures p == v.Bcs() * ClusterNo(v, p) + 512 * SectorNo(v, p) + p % 512
    ensures SectorNo(v, p) < v.csize
  {
    var q, s := p / 512 / v.csize, p / 512 % v.csize;
    assert p / 512 == v.csize * q + s;
    assert 512 * (v.csize * q) == v.Bcs() * q;
    DivModUnique(p, v.Bcs(), q, 512 * s + p % 512);
  }

  lemma Recompose(v: Volume, p: nat, q: nat, s: nat, o: nat)
    requires v.csize > 0 && s < v.csize && o < 512 && p == v.Bcs() * q + 512 * s + o
    ensures ClusterNo(v, p) == q && SectorNo(v, p) == s && p % 512 == o
  {
    assert 512 * (v.csize * q) == v.Bcs() * q;
    assert p == 512 * (v.csize * q + s) + o;
    DivModUnique(p, 512, v.csize * q + s, o);
    DivModUnique(p / 512, v.csize, q, s);
    Decompose(v, p);
  }

  /** Bytes of one sector share cluster and sector. */
  lemma SameSectorPosition(v: Volume, p: nat, k: nat)
    requires v.csize > 0 && p % 512 + k < 512
    ensures ClusterNo(v, p + k) == ClusterNo(v, p) && SectorNo(v, p + k) == SectorNo(v, p)
    ensures (p + k) % 512 == p % 512 + k
  {
    Decompose(v, p);
    Recompose(v, p + k, ClusterNo(v, p), SectorNo(v, p), p % 512 + k);
  }

  /** Stepping over a cluster boundary, and only that, moves on in the chain. */
  lemma NextPosition(v: Volume, p: nat)
    requires v.csize > 0 && p > 0
    ensures ClusterNo(v, p) ==
            if p % 512 == 0 && SectorNo(v, p) == 0 then ClusterNo(v, p - 1) + 1 else ClusterNo(v, p - 1)
    ensures p % 512 == 0 && SectorNo(v, p) == 0 <==> p % v.Bcs() == 0
  {
    Decompose(v, p - 1);
    var q, s, o := ClusterNo(v, p - 1), SectorNo(v, p - 1), (p - 1) % 512;
    if o < 511 {
      Recompose(v, p, q, s, o + 1);
      DivModUnique(p, v.Bcs(), q, 512 * s + o + 1);
    } else if s + 1 < v.csize {
      Recompose(v, p, q, s + 1, 0);
      DivModUnique(p, v.Bcs(), q, 512 * (s + 1));
    } else {
      assert v.Bcs() * (q + 1) == v.Bcs() * q + v.Bcs();
      Recompose(v, p, q + 1, 0, 0);
      DivModUnique(p, v.Bcs(), q + 1, 0);
    }
  }

  lemma SectorMask(v: Volume, p: nat)
    requires v.Sound()
    ensures v.csize > 0
    ensures var m := BitAnd(p / 512, Wrap(v.csize - 1)); ToByte(m) == m == SectorNo(v, p) < v.csize
  {
    WrapSmall(v.csize - 1);
    MaskIsModulo(p / 512, v.csize);
  }

  /** On sound geometry the sectors of a valid cluster do not wrap; 0 means an invalid cluster. */
  lemma Clust2SectBounds(v: Volume, c: nat)
    requires v.Sound() && c < M32
    ensures v.ValidClust(c) ==> 0 < v.Clust2Sect(c) && v.Clust2Sect(c) + v.csize <= M32
    ensures v.Clust2Sect(c) == 0 <==> !v.ValidClust(c)
  {
    hide Wrap, Pow2, Volume.Span;
    if v.ValidClust(c) {
      v.SpanMonotone(c - 2, v.nFatent - 2);
      WrapSmall(v.Span(c - 2) + v.database);
    }
  }

  lemma BytesAppend(v: Volume, start: nat, p: nat, n: nat, m: nat)
    requires v.Sound()
    ensures Bytes(v, start, p, n) + Bytes(v, start, p + n, m) == Bytes(v, start, p, n + m)
  {}

  lemma NoBytes(v: Volume, start: nat, p: nat)
    requires v.Sound()
    ensures Bytes(v, start, p, 0) == []
  {}

  /** A run of bytes inside one readable sector is a slice of that sector. */
  lemma BytesInSector(v: Volume, start: nat, p: nat, n: nat)
    requires v.Sound() && 1 <= n && p % 512 + n <= 512
    requires v.ValidClust(Chain(v, start, ClusterNo(v, p)))
    ensures forall i :: p <= i < p + n ==> Located(v, start, i) == Located(v, start, p)
    ensures Located(v, start, p) ==>
              Bytes(v, start, p, n) == v.disk[ByteSector(v, start, p)][p % 512..p % 512 + n]
  {
    hide ClusterNo, SectorNo, Chain, Pow2, Volume.Clust2Sect;
    forall i | p <= i < p + n
      ensures Located(v, start, i) == Located(v, start, p)
      ensures Located(v, start, p) ==> ByteAt(v, start, i) == v.disk[ByteSector(v, start, p)][p % 512 + (i - p)]
    {
      SameSectorPosition(v, p, i - p);
    }
  }

  /** The cursor agrees with the chain: once past the first byte, `curr` is the cluster of the byte
      before `p`; inside a sector, `dsect` is that sector. */
  ghost predicate Cursor(v: Volume, start: nat, p: nat, curr: nat, dsect: nat)
    requires v.Sound()
  {
    && (p > 0 ==> curr == Chain(v, start, ClusterNo(v, p - 1)) && v.ValidClust(curr))
    && (p % 512 != 0 ==> dsect == v.Clust2Sect(curr) + SectorNo(v, p))
  }

  /** The cursor is on the sector of byte `p`. */
  ghost predicate OnSector(v: Volume, start: nat, p: nat, curr: nat, dsect: nat)
    requires v.Sound()
  {
    curr == Chain(v, start, ClusterNo(v, p)) && v.ValidClust(curr) && dsect == ByteSector(v, start, p)
  }

  lemma CursorAtStart(v: Volume, start: nat, curr: nat, dsect: nat)
    ensures v.Sound() ==> Cursor(v, start, 0, curr, dsect)
  {}

  lemma CursorAdvances(v: Volume, start: nat, p: nat, curr: nat, dsect: nat, k: nat)
    requires v.Sound() && OnSector(v, start, p, curr, dsect) && 1 <= k && p % 512 + k <= 512
    ensures Cursor(v, start, p + k, curr, dsect)
  {
    hide Chain, ClusterNo, SectorNo, Volume.Clust2Sect;
    WithinSector(v, p, k);
  }

  /** Inside a sector the cursor is already on it; on a boundary it knows the cluster to start from. */
  lemma CursorEnters(v: Volume, start: nat, p: nat, curr: nat, dsect: nat)
    requires v.Sound() && Cursor(v, start, p, curr, dsect) && start < M32
    ensures p % 512 != 0 ==> OnSector(v, start, p, curr, dsect)
    ensures p % 512 == 0 && SectorNo(v, p) != 0 ==> curr == Chain(v, start, ClusterNo(v, p)) && v.ValidClust(curr)
    ensures p % 512 == 0 && SectorNo(v, p) == 0 ==>
              Chain(v, start, ClusterNo(v, p)) == if p == 0 then start else v.Link(curr)
  {
    hide SectorNo, ClusterNo, Volume.Clust2Sect;
    if p > 0 {
      NextPosition(v, p);
    } else {
      Recompose(v, 0, 0, 0, 0);
    }
  }

  lemma WithinSector(v: Volume, p: nat, k: nat)
    requires v.csize > 0 && 1 <= k && p % 512 + k <= 512
    ensures ClusterNo(v, p + k - 1) == ClusterNo(v, p)
    ensures (p + k) % 512 != 0 ==> SectorNo(v, p + k) == SectorNo(v, p)
  {
    SameSectorPosition(v, p, k - 1);
    if p % 512 + k < 512 {
      SameSectorPosition(v, p, k);
    }
  }

  // ---- the file object

  /** The mounted volume and the open file. */
  class FatFs {
    var mounted: bool
    var vol: Volume
    var isOpen: bool
    var fptr: nat
    var fsize: nat
    var orgClust: nat
    var currClust: nat
    var dsect: nat

    constructor ()
      ensures Valid() && !mounted && !isOpen
    {
      mounted, isOpen, fptr, fsize, orgClust, currClust, dsect := false, false, 0, 0, 0, 0, 0;
      vol := Volume(map[], FAT12, 1, 0, 2, 0, 0, 1);
    }

    /** The fields are 32-bit numbers, and the position is inside the file. */
    ghost predicate Shape()
      reads this
    {
      fptr <= fsize < M32 && orgClust < M32 && currClust < M32
    }

    ghost predicate Valid()
      reads this
    {
      Shape() && (isOpen ==> vol.Sound() && Cursor(vol, orgClust, fptr, currClust, dsect))
    }

    /** The bytes a read of at most `n` can still deliver. */
    ghost function Limit(n: nat): nat
      requires fptr <= fsize
      reads this
    {
      if n > fsize - fptr then fsize - fptr else n
    }

    /** On a sector boundary find the sector of `fptr`; on a cluster boundary follow the chain first. */
    method EnterSector() returns (ok: bool)
      requires Shape() && isOpen
      modifies this`currClust, this`dsect
      ensures Shape()
      ensures old(Valid()) ==>
                && (ok <==> vol.ValidClust(Chain(vol, orgClust, ClusterNo(vol, fptr))))
                && (ok ==> OnSector(vol, orgClust, fptr, currClust, dsect))
    {
      hide Chain, ClusterNo, SectorNo, BitAnd, Cursor, Pow2, ToByte, Wrap;
      hide Volume.Clust2Sect, Volume.Link, Volume.DataEnd;
      ghost var valid := Valid();
      if valid {
        CursorEnters(vol, orgClust, fptr, currClust, dsect);
        SectorMask(vol, fptr);
      }
      if fptr % 512 == 0 {
        var cs := ToByte(BitAnd(fptr / 512, Wrap(vol.csize as int - 1)));
        if cs == 0 {
          var clst;
          if fptr == 0 {
            clst := orgClust;
          } else {
            clst := vol.GetFat(currClust);
          }
          if clst <= 1 {
            return false;
          }
          currClust := clst;
        }
        if valid {
          Clust2SectBounds(vol, currClust);
        }
        var sect := vol.Clust2Sect(currClust);
        if sect == 0 {
          return false;
        }
        WrapSmall(sect + cs);
        dsect := Wrap(sect + cs);
      }
      return true;
    }

    /** Read the rest of the current sector, but at most `left` bytes, to `buff` at `at`. */
    method ReadInSector(buff: array<byte>, at: nat, left: nat) returns (ok: bool, rcnt: nat)
      requires Shape() && isOpen && 0 < left <= fsize - fptr && at + left <= buff.Length
      modifies this`fptr, this`currClust, this`dsect, buff
      ensures Shape() && fptr == old(fptr) + rcnt && (if ok then 0 < rcnt <= left else rcnt == 0)
      ensures buff[..at] == old(buff[..at]) && buff[at + rcnt..] == old(buff[at + rcnt..])
      ensures old(Valid()) ==>
                && (if ok then Valid() else !Located(vol, orgClust, fptr))
                && AllLocated(vol, orgClust, old(fptr), rcnt)
                && buff[at..at + rcnt] == Bytes(vol, orgClust, old(fptr), rcnt)
    {
      hide Chain, ClusterNo, SectorNo, Cursor, Pow2, Volume.Clust2Sect, Volume.DataEnd;
      ghost var valid := Valid();
      rcnt := 0;
      ok := EnterSector();
      if !ok {
        return;
      }
      var want := 512 - fptr % 512;
      if want > left {
        want := left;
      }
      if valid {
        BytesInSector(vol, orgClust, fptr, want);
      }
      var failed := DiskReadp(vol.disk, buff, at, dsect, fptr % 512, want);
      if failed {
        assert buff[..at] == buff[..][..at] && buff[at..] == buff[..][at..];
        return false, 0;
      }
      if valid {
        CursorAdvances(vol, orgClust, fptr, currClust, dsect, want);
      }
      rcnt := want;
      fptr := fptr + rcnt;
    }

    /** Read up to `btr` bytes. It ends on any volume; what it delivers is known when the volume is sound. */
    method PfRead(buff: array<byte>, btr: nat) returns (res: FResult, br: nat)
      requires Shape() && btr <= buff.Length
      modifies this`isOpen, this`fptr, this`currClust, this`dsect, buff
      ensures Shape() && (old(Valid()) ==> Valid())
      ensures !mounted ==> res == NotEnabled
      ensures mounted && !old(isOpen) ==> res == NotOpened
      ensures !mounted || !old(isOpen) ==>
                br == 0 && buff[..] == old(buff[..]) && isOpen == old(isOpen) && fptr == old(fptr)
      ensures mounted && old(isOpen) ==>
                && br <= old(Limit(btr)) && fptr == old(fptr) + br && buff[br..] == old(buff[br..])
                && (if br == old(Limit(btr)) then res == Ok && isOpen else res == DiskErr && !isOpen)
      ensures mounted && old(isOpen) && old(Valid()) ==>
                && AllLocated(vol, orgClust, old(fptr), br)
                && buff[..br] == Bytes(vol, orgClust, old(fptr), br)
                && (br < old(Limit(btr)) ==> !Located(vol, orgClust, fptr))
    {
      hide Located, Bytes, Cursor, Pow2, Volume.Sound;
      ghost var valid := Valid();
      br := 0;
      if !mounted {
        return NotEnabled, br;
      }
      if !isOpen {
        return NotOpened, br;
      }
      var left: nat := if btr > fsize - fptr then fsize - fptr else btr;
      ghost var p0: nat, n: nat := fptr, left;
      while left > 0
        invariant Shape() && isOpen && fptr == p0 + br && br + left == n <= buff.Length && fptr + left <= fsize
        invariant buff[br..] == old(buff[br..])
        invariant valid ==> Valid() && AllLocated(vol, orgClust, p0, br) && buff[..br] == Bytes(vol, orgClust, p0, br)
      {
        assert buff[br..] == old(buff[br..]);
        ghost var tail := buff[br..];
        var ok, rcnt := ReadInSector(buff, br, left);
        assert buff[br + rcnt..] == tail[rcnt..] == old(buff[br + rcnt..]);
        if !ok {
          isOpen := false;
          return DiskErr, br;
        }
        if valid {
          BytesAppend(vol, orgClust, p0, br, rcnt);
        }
        assert buff[..br + rcnt] == buff[..br] + buff[br..br + rcnt];
        left, br := left - rcnt, br + rcnt;
      }
      return Ok, br;
    }

    /** Forward the rest of the current sector, but at most `left` bytes, to the outgoing stream. */
    method ForwardInSector(left: nat) returns (ok: bool, out: seq<byte>)
      requires Shape() && isOpen && 0 < left <= fsize - fptr
      modifies this`fptr, this`currClust, this`dsect
      ensures Shape() && fptr == old(fptr) + |out| && (if ok then 0 < |out| <= left else out == [])
      ensures old(Valid()) ==>
                && (if ok then Valid() else !Located(vol, orgClust, fptr))
                && AllLocated(vol, orgClust, old(fptr), |out|) && out == Bytes(vol, orgClust, old(fptr), |out|)
    {
      hide Chain, ClusterNo, SectorNo, Cursor, Pow2, Volume.Clust2Sect, Volume.DataEnd;
      ghost var valid := Valid();
      out := [];
      ok := EnterSector();
      if !ok {
        return;
      }
      var want := 512 - fptr % 512;
      if want > left {
        want := left;
      }
      if valid {
        BytesInSector(vol, orgClust, fptr, want);
      }
      var failed;
      failed, out := DiskForward(vol.disk, dsect, fptr % 512, want);
      if failed {
        return false, [];
      }
      if valid {
        CursorAdvances(vol, orgClust, fptr, currClust, dsect, want);
      }
      fptr := fptr + want;
    }

    /** `PfRead` without a buffer: the same bytes go to the outgoing stream. */
    method PfForward(btr: nat) returns (res: FResult, out: seq<byte>)
      requires Shape()
      modifies this`isOpen, this`fptr, this`currClust, this`dsect
      ensures Shape() && (old(Valid()) ==> Valid())
      ensures !mounted ==> res == NotEnabled
      ensures mounted && !old(isOpen) ==> res == NotOpened
      ensures !mounted || !old(isOpen) ==> out == [] && isOpen == old(isOpen) && fptr == old(fptr)
      ensures mounted && old(isOpen) ==>
                && |out| <= old(Limit(btr)) && fptr == old(fptr) + |out|
                && (if |out| == old(Limit(btr)) then res == Ok && isOpen else res == DiskErr && !isOpen)
      ensures mounted && old(isOpen) && old(Valid()) ==>
                && AllLocated(vol, orgClust, old(fptr), |out|) && out == Bytes(vol, orgClust, old(fptr), |out|)
                && (|out| < old(Limit(btr)) ==> !Located(vol, orgClust, fptr))
    {
      hide Located, Bytes, Cursor, Pow2, Volume.Sound;
      ghost var valid := Valid();
      out := [];
      if !mounted {
        return NotEnabled, out;
      }
      if !isOpen {
        return NotOpened, out;
      }
      var left: nat := if btr > fsize - fptr then fsize - fptr else btr;
      ghost var p0: nat, n: nat := fptr, left;
      if valid {
        NoBytes(vol, orgClust, p0);
      }
      while left > 0
        invariant Shape() && isOpen && fptr == p0 + |out| && |out| + left == n && fptr + left <= fsize
        invariant valid ==>
                    Valid() && AllLocated(vol, orgClust, p0, |out|) && out == Bytes(vol, orgClust, p0, |out|)
      {
        var ok, part := ForwardInSector(left);
        if !ok {
          isOpen := false;
          return DiskErr, out;
        }
        if valid {
          BytesAppend(vol, orgClust, p0, |out|, |part|);
        }
        left, out := left - |part|, out + part;
      }
      return Ok, out;
    }

    /** Where a seek to `ofs` starts to follow the chain: the cluster of the byte before the old
        position if the target is not before it, else the first cluster. */
    method SeekStart(ofs: nat, ifptr: nat) returns (base: nat, clst: nat, ghost q: nat)
      requires vol.Sound() && 0 < ofs < M32 && orgClust < M32
      requires Cursor(vol, orgClust, ifptr, currClust, dsect)
      modifies this`currClust
      ensures base == vol.Bcs() * q && base < ofs && q <= ClusterNo(vol, ofs - 1)
      ensures clst == currClust == Chain(vol, orgClust, q) < M32
      ensures q > 0 ==> vol.ValidClust(clst)
    {
      hide Chain, BitAnd, AndNot, Pow2;
      var bcs := vol.csize * 512;
      Decompose(vol, ofs - 1);
      if ifptr > 0 {
        Decompose(vol, ifptr - 1);
        ClusterStart(vol, ifptr - 1);
      }
      hide ClusterNo, SectorNo;
      if ifptr > 0 && (ofs - 1) / bcs >= (ifptr - 1) / bcs {
        base := AndNot(ifptr - 1, bcs - 1);
        clst := currClust;
        q := ClusterNo(vol, ifptr - 1);
        MulMonotone(vol.Bcs(), q, ClusterNo(vol, ofs - 1));
      } else {
        base, q := 0, 0;
        ChainStart(vol, orgClust);
        clst := orgClust;
        currClust := clst;
      }
    }

    /** Follow the chain from its `q`-th cluster `first` until `rest` bytes fit into one cluster. */
    method FollowChain(first: nat, left: nat, ghost target: nat, ghost q0: nat)
      returns (ok: bool, clst: nat, rest: nat, ghost q: nat)
      requires vol.Sound() && 0 < left && fptr + left == target && fptr == vol.Bcs() * q0
      requires first == currClust == Chain(vol, orgClust, q0) < M32 && (q0 > 0 ==> vol.ValidClust(first))
      modifies this`fptr, this`currClust
      ensures ok ==>
                && fptr == vol.Bcs() * q && fptr + rest == target && 0 < rest <= vol.Bcs()
                && clst == currClust == Chain(vol, orgClust, q) < M32 && (q > 0 ==> vol.ValidClust(clst))
      ensures !ok ==> fptr <= target && currClust < M32
      ensures !ok ==> !vol.ValidClust(Chain(vol, orgClust, ClusterNo(vol, target - 1)))
    {
      hide Chain, ClusterNo, Pow2, Volume.Link, Volume.DataEnd;
      var bcs := vol.csize * 512;
      clst, rest, q := first, left, q0;
      while rest > bcs
        invariant fptr == vol.Bcs() * q && fptr + rest == target && 0 < rest
        invariant clst == currClust == Chain(vol, orgClust, q) < M32
        invariant q > 0 ==> vol.ValidClust(clst)
        decreases rest
      {
        ChainBreaks(vol, orgClust, q, target - 1);
        clst := vol.GetFat(clst);
        if clst <= 1 || clst >= vol.nFatent {
          return false, clst, rest, q;
        }
        currClust := clst;
        fptr := fptr + bcs;
        rest := rest - bcs;
        assert vol.Bcs() * (q + 1) == vol.Bcs() * q + vol.Bcs();
        q := q + 1;
      }
      ok := true;
    }

    /** Move to `target`, coming from the old position `ifptr`; the cluster found is that of the byte
        before the target, whichever way the walk started. */
    method WalkTo(target: nat, ifptr: nat) returns (ok: bool, clst: nat)
      requires vol.Sound() && 0 < target < M32 && orgClust < M32
      requires Cursor(vol, orgClust, ifptr, currClust, dsect)
      modifies this`fptr, this`currClust
      ensures ok ==> fptr == target && clst == currClust == Chain(vol, orgClust, ClusterNo(vol, target - 1)) < M32
      ensures !ok ==> fptr <= target && currClust < M32
      ensures !ok ==> !vol.ValidClust(Chain(vol, orgClust, ClusterNo(vol, target - 1)))
    {
      hide Chain, ClusterNo, Cursor, Pow2, Volume.DataEnd;
      var rest;
      ghost var q;
      fptr, clst, q := SeekStart(target, ifptr);
      ok, clst, rest, q := FollowChain(clst, target - fptr, target, q);
      if ok {
        LastCluster(vol, target - 1, q);
        fptr := fptr + rest;
      }
    }

    method PlaceCursor(clst: nat) returns (ok: bool)
      requires vol.Sound() && 0 < fptr && orgClust < M32 && clst < M32
      requires clst == currClust == Chain(vol, orgClust, ClusterNo(vol, fptr - 1))
      modifies this`dsect
      ensures ok <==> vol.ValidClust(clst)
      ensures ok ==> Cursor(vol, orgClust, fptr, currClust, dsect)
    {
      hide Chain, ClusterNo, SectorNo, BitAnd, Pow2, Wrap, ToByte, Volume.Clust2Sect, Volume.DataEnd;
      Clust2SectBounds(vol, clst);
      var sect := vol.Clust2Sect(clst);
      if sect == 0 {
        return false;
      }
      SectorMask(vol, fptr);
      WrapSmall(sect + BitAnd(fptr / 512, Wrap(vol.csize as int - 1)));
      dsect := Wrap(sect + BitAnd(fptr / 512, Wrap(vol.csize as int - 1)));
      ok := true;
    }

    method PfLseek(ofs: nat) returns (res: FResult)
      requires Valid() && ofs < M32
      modifies this`isOpen, this`fptr, this`currClust, this`dsect
      ensures Valid()
      ensures !mounted ==> res == NotEnabled
      ensures mounted && !old(isOpen) ==> res == NotOpened
      ensures !mounted || !old(isOpen) ==> isOpen == old(isOpen) && fptr == old(fptr)
      ensures mounted && old(isOpen) ==>
                if Reachable(vol, orgClust, Clip(ofs, fsize)) then res == Ok && isOpen && fptr == Clip(ofs, fsize)
                else res == DiskErr && !isOpen
    {
      hide Chain, ClusterNo, Cursor, Pow2, Volume.DataEnd;
      if !mounted {
        return NotEnabled;
      }
      if !isOpen {
        return NotOpened;
      }
      var target := if ofs > fsize then fsize else ofs;
      var ifptr := fptr;
      fptr := 0;
      CursorAtStart(vol, orgClust, currClust, dsect);
      if target > 0 {
        var ok, clst := WalkTo(target, ifptr);
        if !ok {
          isOpen := false;
          return DiskErr;
        }
        ok := PlaceCursor(clst);
        if !ok {
          isOpen := false;
          return DiskErr;
        }
      }
      return Ok;
    }
  }

  function Clip(ofs: nat, fsize: nat): nat {
    if ofs > fsize then fsize else ofs
  }

  /** The chain reaches the cluster of the byte before `p`: all that a seek to `p` needs. */
  ghost predicate Reachable(v: Volume, start: nat, p: nat)
    requires v.Sound()
  {
    p > 0 ==> v.ValidClust(Chain(v, start, ClusterNo(v, p - 1)))
  }

  lemma ChainStart(v: Volume, start: nat)
    ensures Chain(v, start, 0) == start
  {}

  lemma MulMonotone(m: nat, a: nat, b: nat)
    ensures a <= b ==> m * a <= m * b
  {}

  /** Clearing the low bits of a position gives the start of its cluster. */
  lemma ClusterStart(v: Volume, p: nat)
    requires v.Sound()
    ensures AndNot(p, v.Bcs() - 1) == v.Bcs() * ClusterNo(v, p)
  {
    hide BitAnd, AndNot, Pow2;
    ClusterSizePow2(v.csize);
    MaskIsModulo(p, v.Bcs());
    AndNotClears(p, v.Bcs() - 1);
    Decompose(v, p);
  }

  lemma ClusterSizePow2(c: nat)
    requires Pow2(c)
    ensures Pow2(512 * c)
  {
    hide Pow2;
    Pow2Doubles(c);
    Pow2Doubles(2 * c);
    Pow2Doubles(4 * c);
    Pow2Doubles(8 * c);
    Pow2Doubles(16 * c);
    Pow2Doubles(32 * c);
    Pow2Doubles(64 * c);
    Pow2Doubles(128 * c);
    Pow2Doubles(256 * c);
  }

  lemma Pow2Doubles(c: nat)
    requires Pow2(c)
    ensures Pow2(2 * c)
  {}

  /** If `p` lies beyond the `q`-th cluster and the next link is broken, `p` is out of reach. */
  lemma ChainBreaks(v: Volume, start: nat, q: nat, p: nat)
    requires v.Sound() && p >= v.Bcs() * q + v.Bcs()
    ensures Chain(v, start, q + 1) == v.Link(Chain(v, start, q))
    ensures !v.ValidClust(Chain(v, start, q + 1)) ==> !v.ValidClust(Chain(v, start, ClusterNo(v, p)))
  {
    Decompose(v, p);
    BelowCluster(v.Bcs(), q + 1, ClusterNo(v, p), p);
    if v.ValidClust(Chain(v, start, ClusterNo(v, p))) {
      ChainPrefixValid(v, start, q + 1, ClusterNo(v, p));
    }
  }

  lemma BelowCluster(b: nat, q: nat, c: nat, p: nat)
    requires b * q <= p < b * c + b
    ensures q <= c
  {
    var d := q - c - 1;
    assert b * d == b * q - (b * c + b) < 0;
    assert d < 0;
  }

  lemma LastCluster(v: Volume, p: nat, q: nat)
    requires v.csize > 0 && v.Bcs() * q <= p < v.Bcs() * q + v.Bcs()
    ensures ClusterNo(v, p) == q
  {
    DivModUnique(p, v.Bcs(), q, p - v.Bcs() * q);
    Decompose(v, p);
  }
}
