/** Whole runs of reads and seeks: the cluster cursor cannot be observed. */
module FatRuns {
  import opened Words
  import opened FatVolume
  import opened FatFile

  datatype Op = Read(n: nat) | Seek(ofs: nat)

  datatype Reply = Reply(res: FResult, data: seq<byte>)

  /** What a caller can tell about an open file: whether it still is open, and the position. */
  datatype View = View(isOpen: bool, pos: nat)

  datatype Outcome = Outcome(view: View, replies: seq<Reply>)

  /** A file without clusters: its extent on the volume and its size. */
  datatype FlatFile = FlatFile(v: Volume, start: nat, fsize: nat) {

    ghost predicate Sound() {
      v.Sound() && fsize < M32
    }

    /** How many of the next `n` bytes can be read before the first one that cannot. */
    ghost function LocatedRun(p: nat, n: nat): (k: nat)
      requires v.Sound()
      ensures k <= n
      decreases n
    {
      if n == 0 || !Located(v, start, p) then 0 else 1 + LocatedRun(p + 1, n - 1)
    }

    ghost function Limit(p: nat, n: nat): nat
      requires p <= fsize
    {
      if n > fsize - p then fsize - p else n
    }

    /** One operation on a byte sequence with a position. */
    ghost function Step(view: View, op: Op): (View, Reply)
      requires Sound() && view.pos <= fsize
    {
      if !view.isOpen then (view, Reply(NotOpened, []))
      else match op
        case Read(n) =>
          var m := Limit(view.pos, n);
          var k := LocatedRun(view.pos, m);
          (View(k == m, if k == m then view.pos + k else 0),
           Reply(if k == m then Ok else DiskErr, Bytes(v, start, view.pos, k)))
        case Seek(ofs) =>
          if Reachable(v, start, Clip(ofs, fsize)) then (View(true, Clip(ofs, fsize)), Reply(Ok, []))
          else (View(false, 0), Reply(DiskErr, []))
    }

    ghost function Run(view: View, ops: seq<Op>): (o: Outcome)
      requires Sound() && view.pos <= fsize
      ensures o.view.pos <= fsize && |o.replies| == |ops|
    {
      if |ops| == 0 then Outcome(view, [])
      else
        var before := Run(view, ops[..|ops| - 1]);
        var (after, reply) := Step(before.view, ops[|ops| - 1]);
        Outcome(after, before.replies + [reply])
    }
  }

  lemma {:induction false} LocatedRunIsLongest(f: FlatFile, p: nat, n: nat)
    requires f.v.Sound()
    ensures var k := f.LocatedRun(p, n);
            AllLocated(f.v, f.start, p, k) && (k < n ==> !Located(f.v, f.start, p + k))
    decreases n
  {
    hide Located;
    if n > 0 && Located(f.v, f.start, p) {
      LocatedRunIsLongest(f, p + 1, n - 1);
    }
  }

  /** The longest readable run is the only one that stops at an unreadable byte. */
  lemma LocatedRunUnique(f: FlatFile, p: nat, n: nat, k: nat)
    requires f.v.Sound() && k <= n && AllLocated(f.v, f.start, p, k)
    requires k < n ==> !Located(f.v, f.start, p + k)
    ensures k == f.LocatedRun(p, n)
  {
    hide Located;
    LocatedRunIsLongest(f, p, n);
  }

  ghost function ViewOf(fs: FatFs): View
    reads fs
  {
    View(fs.isOpen, if fs.isOpen then fs.fptr else 0)
  }

  /** Apply one operation to the file object. */
  method Apply(fs: FatFs, op: Op) returns (reply: Reply)
    requires fs.Valid() && fs.mounted && fs.vol.Sound() && fs.fsize < M32 && (op.Seek? ==> op.ofs < M32)
    modifies fs`isOpen, fs`fptr, fs`currClust, fs`dsect
    ensures fs.Valid()
    ensures old(ViewOf(fs)).pos <= fs.fsize
    ensures var f := FlatFile(fs.vol, fs.orgClust, fs.fsize);
            var (view, r) := f.Step(old(ViewOf(fs)), op);
            ViewOf(fs) == view && reply == r
  {
    ghost var f := FlatFile(fs.vol, fs.orgClust, fs.fsize);
    match op
    case Read(n) =>
      var buff := new byte[n];
      var res, br := fs.PfRead(buff, n);
      reply := Reply(res, buff[..br]);
      if old(fs.isOpen) {
        LocatedRunUnique(f, old(fs.fptr), f.Limit(old(fs.fptr), n), br);
      }
    case Seek(ofs) =>
      var res := fs.PfLseek(ofs);
      reply := Reply(res, []);
  }

  /** Any run of reads and seeks on the file object replies exactly as the flat byte sequence does. Two
      objects on the same file with the same position thus reply alike for ever, however their cursors
      got there, and also where the chain or the disk is broken. */
  method Perform(fs: FatFs, ops: seq<Op>) returns (replies: seq<Reply>)
    requires fs.Valid() && fs.mounted && fs.vol.Sound() && fs.fsize < M32
    requires forall op :: op in ops && op.Seek? ==> op.ofs < M32
    modifies fs`isOpen, fs`fptr, fs`currClust, fs`dsect
    ensures fs.Valid() && old(ViewOf(fs)).pos <= fs.fsize
    ensures FlatFile(fs.vol, fs.orgClust, fs.fsize).Run(old(ViewOf(fs)), ops) == Outcome(ViewOf(fs), replies)
  {
    ghost var f := FlatFile(fs.vol, fs.orgClust, fs.fsize);
    ghost var start := ViewOf(fs);
    replies := [];
    for i := 0 to |ops|
      invariant fs.Valid()
      invariant f.Run(start, ops[..i]) == Outcome(ViewOf(fs), replies)
    {
      assert ops[..i + 1][..i] == ops[..i];
      var reply := Apply(fs, ops[i]);
      replies := replies + [reply];
    }
    assert ops[..|ops|] == ops;
  }

  // ---- what runs mean

  ghost function Total(ops: seq<Op>): nat
    requires forall op :: op in ops ==> op.Read?
  {
    if |ops| == 0 then 0 else Total(ops[..|ops| - 1]) + ops[|ops| - 1].n
  }

  ghost function Delivered(replies: seq<Reply>): seq<byte> {
    if |replies| == 0 then [] else Delivered(replies[..|replies| - 1]) + replies[|replies| - 1].data
  }

  lemma LocatedRunGrows(f: FlatFile, p: nat, n: nat, m: nat)
    requires f.v.Sound()
    ensures var k := f.LocatedRun(p, n);
            f.LocatedRun(p, n + m) == if k < n then k else n + f.LocatedRun(p + n, m)
  {
    hide Located;
    LocatedRunIsLongest(f, p, n);
    LocatedRunIsLongest(f, p + n, m);
    var k := f.LocatedRun(p, n);
    if k < n {
      LocatedRunUnique(f, p, n + m, k);
    } else {
      LocatedRunUnique(f, p, n + m, n + f.LocatedRun(p + n, m));
    }
  }

  /** `o` is what one read of `n` bytes at `p` comes to, in however many replies. */
  ghost predicate AsOneRead(f: FlatFile, p: nat, n: nat, o: Outcome)
    requires f.Sound() && p + n <= f.fsize
  {
    var k := f.LocatedRun(p, n);
    && o.view == (if k == n then View(true, p + n) else View(false, 0))
    && Delivered(o.replies) == Bytes(f.v, f.start, p, k)
    && (k == n <==> forall r :: r in o.replies ==> r.res == Ok)
  }

  lemma DeliveredNext(replies: seq<Reply>, r: Reply)
    ensures Delivered(replies + [r]) == Delivered(replies) + r.data
  {
    assert (replies + [r])[..|replies|] == replies;
  }

  lemma NoReads(f: FlatFile, p: nat)
    requires f.Sound() && p <= f.fsize
    ensures f.Limit(p, Total([])) == 0 && AsOneRead(f, p, 0, f.Run(View(true, p), []))
  {
    hide Located, Volume.Sound, FlatFile.Step;
    assert Bytes(f.v, f.start, p, 0) == [];
  }

  /** One read more. */
  lemma ReadOn(f: FlatFile, p: nat, n: nat, before: Outcome, m: nat)
    requires f.Sound() && p + n <= f.fsize && before.view.pos <= f.fsize
    ensures AsOneRead(f, p, n, before) ==>
              var (after, r) := f.Step(before.view, Read(m));
              AsOneRead(f, p, n + f.Limit(p + n, m), Outcome(after, before.replies + [r]))
  {
    hide Bytes, Delivered, FlatFile.LocatedRun, Located, Volume.Sound;
    var (after, r) := f.Step(before.view, Read(m));
    DeliveredNext(before.replies, r);
    LocatedRunGrows(f, p, n, f.Limit(p + n, m));
    if f.LocatedRun(p, n) == n {
      BytesAppend(f.v, f.start, p, n, f.LocatedRun(p + n, f.Limit(p + n, m)));
    }
  }

  lemma RunNext(f: FlatFile, view: View, ops: seq<Op>)
    requires f.Sound() && view.pos <= f.fsize && |ops| > 0
    ensures var before := f.Run(view, ops[..|ops| - 1]);
            var (after, r) := f.Step(before.view, ops[|ops| - 1]);
            f.Run(view, ops) == Outcome(after, before.replies + [r])
  {
    hide FlatFile.Step, Volume.Sound;
  }

  lemma TotalNext(f: FlatFile, p: nat, ops: seq<Op>)
    requires p <= f.fsize && |ops| > 0 && forall op :: op in ops ==> op.Read?
    ensures var n := f.Limit(p, Total(ops[..|ops| - 1]));
            f.Limit(p, Total(ops)) == n + f.Limit(p + n, ops[|ops| - 1].n)
  {}

  /** However a read is split into smaller ones, the bytes are the same: those up to the end of the file or
      to the first one that cannot be read. */
  lemma {:induction false} SplitReads(f: FlatFile, p: nat, ops: seq<Op>)
    requires f.Sound() && p <= f.fsize && (forall op :: op in ops ==> op.Read?)
    ensures AsOneRead(f, p, f.Limit(p, Total(ops)), f.Run(View(true, p), ops))
  {
    hide AsOneRead, FlatFile.Step, FlatFile.Run, Total, Volume.Sound;
    if |ops| == 0 {
      assert ops == [];
      NoReads(f, p);
    } else {
      var front, last := ops[..|ops| - 1], ops[|ops| - 1];
      SplitReads(f, p, front);
      RunNext(f, View(true, p), ops);
      TotalNext(f, p, ops);
      ReadOn(f, p, f.Limit(p, Total(front)), f.Run(View(true, p), front), last.n);
    }
  }

  /** After a successful seek the rest of the run depends on the target alone, not on the path to it. */
  lemma {:induction false} SeekForgets(f: FlatFile, a: View, b: View, ofs: nat, ops: seq<Op>)
    requires f.Sound() && a.isOpen && b.isOpen && a.pos <= f.fsize && b.pos <= f.fsize
    ensures f.Run(a, [Seek(ofs)] + ops) == f.Run(b, [Seek(ofs)] + ops)
  {
    var all := [Seek(ofs)] + ops;
    if |ops| == 0 {
      assert all == [Seek(ofs)] && all[..0] == [];
    } else {
      SeekForgets(f, a, b, ofs, ops[..|ops| - 1]);
      assert all[..|all| - 1] == [Seek(ofs)] + ops[..|ops| - 1];
    }
  }
}
