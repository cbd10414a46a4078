/** The path one 1-Wire ROM search takes through the binary trie of device codes, and what it finds. */
module OneWireWalk {
  import opened OneWireCrc

  /** The devices still listening after the bits `pre` were written. */
  ghost function Heard(devices: set<Code>, pre: seq<bool>): set<Code> {
    set d | d in devices && pre <= d
  }

  /** No listening device would send anything but `bit` next. */
  ghost predicate AllSend(devices: set<Code>, pre: seq<bool>, bit: bool)
    requires |pre| < 64
  {
    forall d :: d in Heard(devices, pre) ==> d[|pre|] == bit
  }

  /** The bit the search writes after `pre`, given the previous code and the last discrepancy. */
  ghost predicate Direction(devices: set<Code>, rom: Code, ld: int, pre: seq<bool>)
    requires |pre| < 64
  {
    if AllSend(devices, pre, true) then true
    else if AllSend(devices, pre, false) then false
    else if |pre| + 1 < ld then rom[|pre|]
    else |pre| + 1 == ld
  }

  /** The code the search ends on once `pre` has been written. */
  ghost function Walk(devices: set<Code>, rom: Code, ld: int, pre: seq<bool>): (code: Code)
    requires |pre| <= 64
    decreases 64 - |pre|
  {
    if |pre| == 64 then pre else Walk(devices, rom, ld, pre + [Direction(devices, rom, ld, pre)])
  }

  /** At position `q` the path `pre` took 0 although some device with the same prefix has 1. */
  ghost predicate ZeroChosen(devices: set<Code>, pre: seq<bool>, q: nat)
    requires q < |pre| <= 64
  {
    !pre[q] && exists d :: d in Heard(devices, pre[..q]) && d[q]
  }

  /** One more than the last position where 0 was chosen on `pre`; 0 if there is none. */
  ghost function LastZero(devices: set<Code>, pre: seq<bool>): (z: nat)
    requires |pre| <= 64
    ensures z <= |pre|
  {
    if |pre| == 0 then 0
    else if ZeroChosen(devices, pre, |pre| - 1) then |pre|
    else LastZero(devices, pre[..|pre| - 1])
  }

  lemma {:induction false} LastZeroIsLast(devices: set<Code>, pre: seq<bool>)
    requires |pre| <= 64
    ensures var z := LastZero(devices, pre);
            && (z > 0 ==> ZeroChosen(devices, pre, z - 1))
            && (forall q :: z <= q < |pre| ==> !ZeroChosen(devices, pre, q))
  {
    if |pre| > 0 {
      var n := |pre| - 1;
      LastZeroIsLast(devices, pre[..n]);
      forall q | 0 <= q < n
        ensures ZeroChosen(devices, pre, q) == ZeroChosen(devices, pre[..n], q)
      {
        assert pre[..n][..q] == pre[..q];
      }
    }
  }

  // ---- the order in which codes are found

  predicate FirstDifference(a: Code, b: Code, p: nat) {
    p < 64 && a[..p] == b[..p] && !a[p] && b[p]
  }

  /** LSB-first lexicographic order. */
  ghost predicate Less(a: Code, b: Code) {
    exists p: nat :: FirstDifference(a, b, p)
  }

  lemma LessIsStrictOrder(a: Code, b: Code, c: Code)
    ensures !Less(a, a)
    ensures Less(a, b) && Less(b, c) ==> Less(a, c)
  {
    if Less(a, b) && Less(b, c) {
      var p: nat :| FirstDifference(a, b, p);
      var q: nat :| FirstDifference(b, c, q);
      var m := if p < q then p else q;
      assert a[..m] == a[..p][..m] && b[..m] == b[..p][..m] == b[..q][..m] && c[..m] == c[..q][..m];
      assert FirstDifference(a, c, m);
    }
  }

  lemma LessIsTotal(a: Code, b: Code)
    ensures a == b || Less(a, b) || Less(b, a)
  {
    var p := CommonPrefix(a, b);
    if p < 64 {
      assert FirstDifference(a, b, p) || FirstDifference(b, a, p);
    } else {
      assert a[..64] == a && b[..64] == b;
    }
  }

  lemma CommonPrefix(a: Code, b: Code) returns (p: nat)
    ensures p <= 64 && a[..p] == b[..p]
    ensures p < 64 ==> a[p] != b[p]
  {
    p := 0;
    while p < 64 && a[p] == b[p]
      invariant p <= 64 && a[..p] == b[..p]
    {
      p := p + 1;
    }
  }

  // ---- what a walk finds

  /** Some listening device follows the direction taken. */
  lemma DirectionIsHeard(devices: set<Code>, rom: Code, ld: int, pre: seq<bool>)
    requires |pre| < 64 && Heard(devices, pre) != {}
    ensures Heard(devices, pre + [Direction(devices, rom, ld, pre)]) != {}
  {
    var bit := Direction(devices, rom, ld, pre);
    var d :| d in Heard(devices, pre) && d[|pre|] == bit;
    assert pre + [bit] <= d;
    assert d in Heard(devices, pre + [bit]);
  }

  /** The code found belongs to a listening device. */
  lemma {:induction false} WalkFindsDevice(devices: set<Code>, rom: Code, ld: int, pre: seq<bool>)
    requires |pre| <= 64 && Heard(devices, pre) != {}
    ensures Walk(devices, rom, ld, pre) in Heard(devices, pre)
    decreases 64 - |pre|
  {
    if |pre| == 64 {
      var d :| d in Heard(devices, pre);
      assert pre == d[..64] == d;
    } else {
      DirectionIsHeard(devices, rom, ld, pre);
      WalkFindsDevice(devices, rom, ld, pre + [Direction(devices, rom, ld, pre)]);
    }
  }

  /** Before the last discrepancy the walk stays on any prefix of `rom` that some device still has. */
  lemma {:induction false} WalkFollowsRom(devices: set<Code>, rom: Code, ld: int, n: nat)
    requires n < ld && n <= 64 && Heard(devices, rom[..n]) != {}
    ensures Walk(devices, rom, ld, []) == Walk(devices, rom, ld, rom[..n])
  {
    if n > 0 {
      var d :| d in Heard(devices, rom[..n]);
      var pre := rom[..n - 1];
      assert pre == rom[..n][..n - 1] <= d && d[n - 1] == rom[..n][n - 1];
      assert d in Heard(devices, pre);
      WalkFollowsRom(devices, rom, ld, n - 1);
      assert pre + [rom[n - 1]] == rom[..n];
    }
  }

  /** From `pre` on, every real choice writes 0. */
  ghost predicate ChoosesZeros(devices: set<Code>, rom: Code, ld: int, from: nat) {
    && (forall k :: from <= k < 64 && k + 1 < ld ==> !rom[k])
    && (from < ld ==> ld >= 64 && forall d :: d in devices ==> Crc(0, d) == 0)
  }

  /** A walk that chooses zeros ends on the least device with the prefix. */
  lemma {:induction false} WalkFindsLeast(devices: set<Code>, rom: Code, ld: int, pre: seq<bool>, d: Code)
    requires |pre| <= 64 && ChoosesZeros(devices, rom, ld, |pre|)
    requires d in Heard(devices, pre)
    ensures var found := Walk(devices, rom, ld, pre); d == found || Less(found, d)
    decreases 64 - |pre|
  {
    if |pre| == 64 {
      assert d[..64] == d;
    } else {
      var bit := Direction(devices, rom, ld, pre);
      if d[|pre|] == bit {
        assert pre + [bit] <= d;
        WalkFindsLeast(devices, rom, ld, pre + [bit], d);
      } else {
        if bit {
          OnlyZeroAtChoice(devices, rom, ld, pre, d);
        }
        DirectionIsHeard(devices, rom, ld, pre);
        WalkFindsDevice(devices, rom, ld, pre + [bit]);
        var found := Walk(devices, rom, ld, pre + [bit]);
        assert found[..|pre|] == (pre + [bit])[..|pre|] == d[..|pre|] && found[|pre|] == (pre + [bit])[|pre|];
        assert FirstDifference(found, d, |pre|);
      }
    }
  }

  lemma OnlyZeroAtChoice(devices: set<Code>, rom: Code, ld: int, pre: seq<bool>, d: Code)
    requires |pre| < 64 && ChoosesZeros(devices, rom, ld, |pre|)
    requires d in Heard(devices, pre) && !d[|pre|]
    ensures !Direction(devices, rom, ld, pre)
  {
    if |pre| + 1 == ld {
      forall e | e in Heard(devices, pre)
        ensures !e[|pre|]
      {
        assert d[..56] == d[..|pre|][..56] == e[..|pre|][..56] == e[..56];
        NoDifferenceInCrcByte(d, e);
      }
    }
  }

  /** Resumed at a discrepancy of a found device, the walk leaves it there for the other branch. */
  lemma WalkTurns(devices: set<Code>, cur: Code, n: nat)
    requires cur in devices && n <= 64 && LastZero(devices, cur[..n]) > 0
    ensures var ld := LastZero(devices, cur[..n]);
            var next := Walk(devices, cur, ld, []);
            && next in devices && FirstDifference(cur, next, ld - 1)
            && next == Walk(devices, cur, ld, cur[..ld - 1] + [true])
  {
    hide LastZero, Crc;
    var pre := cur[..n];
    var ld := LastZero(devices, pre);
    var p := ld - 1;
    LastZeroIsLast(devices, pre);
    assert pre[..p] == cur[..p];
    assert cur in Heard(devices, cur[..p]);
    WalkFollowsRom(devices, cur, ld, p);
    var e :| e in Heard(devices, cur[..p]) && e[p];
    var stem := cur[..p] + [true];
    assert Direction(devices, cur, ld, cur[..p]);
    assert stem <= e && e in Heard(devices, stem);
    WalkFindsDevice(devices, cur, ld, stem);
    var next := Walk(devices, cur, ld, stem);
    assert next[..p] == stem[..p] == cur[..p] && next[p] == stem[p];
  }

  /** With the last discrepancy of the first `n` bits of a found device, the next walk finds the
      least device beyond it that differs in those bits (n = 64: the successor). */
  lemma WalkFindsSuccessor(devices: set<Code>, cur: Code, n: nat)
    requires cur in devices && n <= 64 && LastZero(devices, cur[..n]) > 0
    ensures var next := Walk(devices, cur, LastZero(devices, cur[..n]), []);
            && next in devices && Less(cur, next) && next[..n] != cur[..n]
            && forall d :: d in devices && Less(cur, d) && d[..n] != cur[..n] ==> d == next || Less(next, d)
  {
    hide LastZero, Crc, Walk;
    WalkTurns(devices, cur, n);
    var p := LastZero(devices, cur[..n]) - 1;
    var next := Walk(devices, cur, p + 1, []);
    assert next[..n][p] != cur[..n][p];
    forall d | d in devices && Less(cur, d) && d[..n] != cur[..n]
      ensures d == next || Less(next, d)
    {
      SuccessorIsLeast(devices, cur, n, next, d);
    }
  }

  /** Where two codes first differ is a choice the lesser one's walk made, if the greater is present. */
  lemma DifferenceIsChoice(devices: set<Code>, cur: Code, d: Code, n: nat, q: nat)
    requires d in devices && FirstDifference(cur, d, q) && n <= 64
    ensures q >= n ==> d[..n] == cur[..n]
    ensures q < n ==> ZeroChosen(devices, cur[..n], q)
  {
    if q >= n {
      assert d[..n] == d[..q][..n] == cur[..q][..n] == cur[..n];
    } else {
      assert cur[..n][..q] == cur[..q];
      assert d in Heard(devices, cur[..q]);
    }
  }

  lemma SuccessorIsLeast(devices: set<Code>, cur: Code, n: nat, next: Code, d: Code)
    requires cur in devices && n <= 64
    requires var ld := LastZero(devices, cur[..n]);
             && ld > 0 && next == Walk(devices, cur, ld, cur[..ld - 1] + [true])
             && next[..ld - 1] == cur[..ld - 1] && next[ld - 1]
    requires d in devices && Less(cur, d) && d[..n] != cur[..n]
    ensures d == next || Less(next, d)
  {
    hide Crc, LastZero, Walk;
    var p := LastZero(devices, cur[..n]) - 1;
    var q: nat :| FirstDifference(cur, d, q);
    LastZeroIsLast(devices, cur[..n]);
    DifferenceIsChoice(devices, cur, d, n, q);
    if q == p {
      assert cur[..p] + [true] <= d;
      WalkFindsLeast(devices, cur, p + 1, cur[..p] + [true], d);
    } else {
      DiffersEarlier(cur, next, d, p, q);
    }
  }

  lemma DiffersEarlier(cur: Code, next: Code, d: Code, p: nat, q: nat)
    requires q < p < 64 && next[..p] == cur[..p] && FirstDifference(cur, d, q)
    ensures Less(next, d)
  {
    assert next[..q] == next[..p][..q] == cur[..p][..q] == d[..q];
    assert next[q] == next[..p][q] == cur[..p][q];
    assert FirstDifference(next, d, q);
  }

  /** Without a recorded discrepancy no device beyond `cur` differs in the first `n` bits. */
  lemma NoDiscrepancyNoSuccessor(devices: set<Code>, cur: Code, n: nat, d: Code)
    requires n <= 64 && LastZero(devices, cur[..n]) == 0
    requires d in devices && Less(cur, d)
    ensures d[..n] == cur[..n]
  {
    LastZeroIsLast(devices, cur[..n]);
    var q: nat :| FirstDifference(cur, d, q);
    DifferenceIsChoice(devices, cur, d, n, q);
  }

  // ---- what the operations mean on a bus whose devices all carry valid codes

  ghost predicate OnlyAcceptable(devices: set<Code>) {
    forall d :: d in devices ==> Acceptable(d)
  }

  ghost predicate IsFirst(devices: set<Code>, c: Code) {
    c in devices && forall d :: d in devices ==> d == c || Less(c, d)
  }

  ghost predicate IsNext(devices: set<Code>, cur: Code, c: Code) {
    c in devices && Less(cur, c) && forall d :: d in devices && Less(cur, d) ==> d == c || Less(c, d)
  }

  /** A search from scratch finds the least device. */
  lemma FirstIsLeast(devices: set<Code>, rom: Code)
    requires devices != {}
    ensures IsFirst(devices, Walk(devices, rom, 0, []))
  {
    assert Heard(devices, []) == devices;
    WalkFindsDevice(devices, rom, 0, []);
    forall d | d in devices
      ensures var c := Walk(devices, rom, 0, []); d == c || Less(c, d)
    {
      WalkFindsLeast(devices, rom, 0, [], d);
    }
  }

  lemma SameCodeNotLess(a: Code, b: Code)
    ensures a[..64] == b[..64] ==> !Less(a, b)
  {
    assert a[..64] == a && b[..64] == b;
    LessIsStrictOrder(a, a, a);
  }

  /** A search that goes on from a device finds its successor, or knows there is none. */
  lemma NextIsSuccessor(devices: set<Code>, cur: Code)
    requires cur in devices
    ensures var ld := LastZero(devices, cur);
            && (ld > 0 ==> IsNext(devices, cur, Walk(devices, cur, ld, [])))
            && (ld == 0 ==> forall d :: d in devices ==> !Less(cur, d))
  {
    assert cur[..64] == cur;
    if LastZero(devices, cur) > 0 {
      WalkFindsSuccessor(devices, cur, 64);
      forall d | d in devices && Less(cur, d)
        ensures d[..64] != cur[..64]
      {
        SameCodeNotLess(cur, d);
      }
    } else {
      forall d | d in devices
        ensures !Less(cur, d)
      {
        if Less(cur, d) {
          NoDiscrepancyNoSuccessor(devices, cur, 64, d);
          SameCodeNotLess(cur, d);
        }
      }
    }
  }

  /** A search that keeps to the ROM buffer in its first 63 bits finds that code iff it is present,
      unless the code ends in 0 and its twin ending in 1 is present too. */
  lemma VerifyWalk(devices: set<Code>, rom: Code)
    requires devices != {}
    ensures Walk(devices, rom, 64, []) == rom <==> rom in devices && (rom[63] || rom[63 := true] !in devices)
    ensures OnlyAcceptable(devices) && rom in devices ==> rom[63] || rom[63 := true] !in devices
  {
    assert Heard(devices, []) == devices;
    WalkFindsDevice(devices, rom, 64, []);
    if rom in devices {
      var twin := rom[63 := true];
      var pre := rom[..63];
      assert rom in Heard(devices, pre);
      WalkFollowsRom(devices, rom, 64, 63);
      var dir := Direction(devices, rom, 64, pre);
      assert Walk(devices, rom, 64, pre) == pre + [dir];
      assert rom == pre + [rom[63]] && twin == pre + [true];
      assert twin in devices ==> twin in Heard(devices, pre);
      assert forall d :: d in Heard(devices, pre) && d[63] ==> d == twin;
      if OnlyAcceptable(devices) && twin in devices {
        assert rom[..56] == twin[..56];
        NoDifferenceInCrcByte(rom, twin);
      }
    }
  }

  /** From the code f,0,..,0 the search finds the least device whose first byte is f. */
  lemma TargetWalk(devices: set<Code>, rom: Code)
    requires OnlyAcceptable(devices) && forall k :: 8 <= k < 64 ==> !rom[k]
    ensures var family := Heard(devices, rom[..8]);
            family != {} ==> IsFirst(family, Walk(devices, rom, 64, []))
  {
    var family := Heard(devices, rom[..8]);
    if family != {} {
      WalkFollowsRom(devices, rom, 64, 8);
      WalkFindsDevice(devices, rom, 64, rom[..8]);
      forall d | d in family
        ensures var c := Walk(devices, rom, 64, []); d == c || Less(c, d)
      {
        WalkFindsLeast(devices, rom, 64, rom[..8], d);
      }
    }
  }

  /** The devices after `cur` whose first byte is another. */
  ghost function LaterFamilies(devices: set<Code>, cur: Code): set<Code> {
    set d | d in devices && Less(cur, d) && d[..8] != cur[..8]
  }

  /** Resuming at the last zero chosen among the first eight bits leaves the family for the next. */
  lemma FamilySkipWalk(devices: set<Code>, cur: Code)
    requires cur in devices
    ensures var mark := LastZero(devices, cur[..8]);
            && (mark > 0 <==> LaterFamilies(devices, cur) != {})
            && (mark > 0 ==> IsFirst(LaterFamilies(devices, cur), Walk(devices, cur, mark, [])))
  {
    hide Less, LastZero, Walk;
    if LastZero(devices, cur[..8]) > 0 {
      WalkFindsSuccessor(devices, cur, 8);
      assert Walk(devices, cur, LastZero(devices, cur[..8]), []) in LaterFamilies(devices, cur);
    } else {
      forall d | d in devices && Less(cur, d)
        ensures d[..8] == cur[..8]
      {
        NoDiscrepancyNoSuccessor(devices, cur, 8, d);
      }
    }
  }

  /** Among the first `n` bits the last zero chosen is that of the whole code, unless that lies behind. */
  lemma LastZeroOfFront(devices: set<Code>, cur: Code, n: nat)
    requires n <= 64 && LastZero(devices, cur) <= n
    ensures LastZero(devices, cur[..n]) == LastZero(devices, cur)
  {
    hide ZeroChosen;
    LastZeroIsLast(devices, cur);
    LastZeroIsLast(devices, cur[..n]);
    forall q | 0 <= q < n
      ensures ZeroChosen(devices, cur[..n], q) == ZeroChosen(devices, cur, q)
    {
      ChosenInFront(devices, cur, n, q);
    }
  }

  lemma ChosenInFront(devices: set<Code>, cur: Code, n: nat, q: nat)
    requires q < n <= 64
    ensures ZeroChosen(devices, cur[..n], q) == ZeroChosen(devices, cur, q)
  {
    assert cur[..n][..q] == cur[..q];
  }

  /** Resumed at a 1 of a found device, the walk goes back to the least device that has the same bits up
      to there. */
  lemma WalkGoesBack(devices: set<Code>, cur: Code, m: nat)
    requires cur in devices && 1 <= m < 64 && cur[m - 1]
    ensures var back := Walk(devices, cur, m, []);
            back in devices && (back == cur || Less(back, cur))
  {
    hide Crc;
    var pre, stem := cur[..m - 1], cur[..m];
    assert pre + [true] == stem && stem <= cur && pre <= cur;
    assert cur in Heard(devices, pre) && cur in Heard(devices, stem);
    WalkFollowsRom(devices, cur, m, m - 1);
    assert Direction(devices, cur, m, pre);
    WalkFindsLeast(devices, cur, m, stem, cur);
    WalkFindsDevice(devices, cur, m, stem);
  }

  // ---- listing the bus

  /** `codes` are the devices found so far, in ascending order; `rest` are the others, all greater. */
  ghost predicate Scanned(devices: set<Code>, codes: seq<Code>, rest: set<Code>) {
    && (forall d :: d in devices <==> d in codes || d in rest)
    && (forall i, j :: 0 <= i < j < |codes| ==> Less(codes[i], codes[j]))
    && (forall c, d :: c in codes && d in rest ==> Less(c, d))
    && |codes| + |rest| == |devices|
  }

  lemma FirstIsMember(devices: set<Code>, c: Code)
    requires IsFirst(devices, c)
    ensures c in devices
  {}

  lemma ScanStep(devices: set<Code>, codes: seq<Code>, rest: set<Code>, cur: Code)
    requires Scanned(devices, codes, rest) && IsFirst(rest, cur)
    ensures Scanned(devices, codes + [cur], rest - {cur})
    ensures forall c :: IsNext(devices, cur, c) ==> IsFirst(rest - {cur}, c)
    ensures (forall d :: d in devices ==> !Less(cur, d)) ==> rest - {cur} == {}
  {
    forall d | d in codes
      ensures !Less(cur, d)
    {
      assert Less(d, cur);
      LessIsStrictOrder(d, cur, d);
    }
    LessIsStrictOrder(cur, cur, cur);
    var after := codes + [cur];
    assert forall d :: d in after <==> d in codes || d == cur;
    forall c | IsNext(devices, cur, c)
      ensures IsFirst(rest - {cur}, c)
    {
      assert c in rest;
    }
  }
}
