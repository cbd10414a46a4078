/** The stateful 1-Wire ROM search (Maxim Application Note 187) over a wired-AND bus. */
module OneWireSearch {
  import opened ByteBits
  import opened OneWireCrc
  import opened OneWireWalk

  datatype Phase = AwaitCommand | SendBit | SendComplement | AwaitDirection | Silent

  const SEARCH_ROM: bv8 := 0xF0

  /** The devices on the bus and their side of the search protocol. A device that is sent the other
      direction stops listening until the next reset; a released bus reads 1. */
  class Bus {
    const devices: set<Code>
    ghost var written: seq<bool>
    var listening: set<Code>
    var position: nat
    var phase: Phase

    ghost predicate Valid()
      reads this
    {
      phase.SendBit? || phase.SendComplement? || phase.AwaitDirection? ==>
        position == |written| < 64 && listening == Heard(devices, written)
    }

    constructor (devices: set<Code>)
      ensures Valid() && this.devices == devices
    {
      this.devices := devices;
      listening, position, phase, written := {}, 0, Silent, [];
    }

    method Reset() returns (absent: bool)
      requires Valid()
      modifies this
      ensures Valid() && phase == AwaitCommand
      ensures absent <==> devices == {}
    {
      phase := AwaitCommand;
      absent := devices == {};
    }

    method WriteByte(command: bv8)
      requires Valid()
      modifies this
      ensures Valid()
      ensures command == 0xF0 && old(phase) == AwaitCommand ==> phase == SendBit && written == []
    {
      if command == SEARCH_ROM && phase == AwaitCommand {
        written, listening, position, phase := [], devices, 0, SendBit;
        assert listening == Heard(devices, written);
      } else {
        phase := Silent;
      }
    }

    method ReadBit() returns (bit: bool)
      requires Valid()
      modifies this`phase
      ensures Valid()
      ensures old(phase) == SendBit ==> phase == SendComplement && bit == AllSend(devices, written, true)
      ensures old(phase) == SendComplement ==> phase == AwaitDirection && bit == AllSend(devices, written, false)
    {
      match phase
      case SendBit =>
        bit := forall d :: d in listening ==> d[position];
        phase := SendComplement;
      case SendComplement =>
        bit := forall d :: d in listening ==> !d[position];
        phase := AwaitDirection;
      case _ =>
        bit := true;
    }

    method WriteBit(direction: bool)
      requires Valid()
      modifies this
      ensures Valid()
      ensures old(phase) == AwaitDirection ==>
                written == old(written) + [direction] && phase == if |written| < 64 then SendBit else Silent
    {
      if phase == AwaitDirection {
        ghost var before := written;
        written := before + [direction];
        listening := set d | d in listening && d[position] == direction;
        position := position + 1;
        phase := if position < 64 then SendBit else Silent;
        assert forall d :: d in devices && before <= d ==> (written <= d <==> d[|before|] == direction);
        assert listening == Heard(devices, written);
      }
    }
  }

  lemma BitsAfterPut(bytes: seq<bv8>, k: nat, b: bv8, direction: bool)
    requires |bytes| == 8 && k < 64
    requires b == if direction then bytes[k / 8] | Mask(k % 8) else bytes[k / 8] & !Mask(k % 8)
    ensures Bits(bytes[k / 8 := b]) == Bits(bytes)[k := direction]
  {
    hide BitAt, Mask;
    var before, after := Bits(bytes), Bits(bytes[k / 8 := b]);
    forall i | 0 <= i < 64
      ensures after[i] == if i == k then direction else before[i]
    {
      BitAfterPut(bytes, k, b, direction, i);
    }
  }

  lemma BitAfterPut(bytes: seq<bv8>, k: nat, b: bv8, direction: bool, i: nat)
    requires |bytes| == 8 && k < 64 && i < 64
    requires b == if direction then bytes[k / 8] | Mask(k % 8) else bytes[k / 8] & !Mask(k % 8)
    ensures Bits(bytes[k / 8 := b])[i] == if i == k then direction else Bits(bytes)[i]
  {
    hide Bits, BitAt, Mask;
    BitOfByte(bytes, i);
    BitOfByte(bytes[k / 8 := b], i);
    if i / 8 == k / 8 {
      SetBitIsExact(bytes[k / 8], k % 8, i % 8);
    }
  }

  lemma BitOfByte(bytes: seq<bv8>, k: nat)
    requires k < 8 * |bytes|
    ensures |Bits(bytes)| == 8 * |bytes| && Bits(bytes)[k] == BitAt(bytes[k / 8], k % 8)
  {}

  lemma MaskNext(j: nat)
    requires j < 8
    ensures Mask(j) << 1 == if j == 7 then 0 else Mask(j + 1)
    ensures Mask(0) == 1 && (j < 7 ==> Mask(j + 1) != 0)
  {}

  lemma ReadBitThroughMask(b: bv8, j: nat)
    requires j < 8
    ensures (b & Mask(j) > 0) == BitAt(b, j)
  {}

  /** The next byte's bits extend the CRC by one table step. */
  lemma CrcNextByte(bits: seq<bool>, bytes: seq<bv8>, n: nat)
    requires n < |bytes| == 8 && |bits| == 64
    requires Bits(bytes)[8 * n..8 * n + 8] == bits[8 * n..8 * n + 8]
    ensures Crc(0, bits[..8 * n + 8]) == DscrcTable(Crc(0, bits[..8 * n]) ^ bytes[n])
  {
    hide DscrcTable, BitAt, CrcBit, Crc;
    TableIsSerial(Crc(0, bits[..8 * n]), bytes[n]);
    CrcConcat(0, bits[..8 * n], bits[8 * n..8 * n + 8]);
    assert bits[..8 * n + 8] == bits[..8 * n] + bits[8 * n..8 * n + 8];
    assert Bits([bytes[n]]) == Bits(bytes)[8 * n..8 * n + 8];
  }

  lemma PutExtends(pre: seq<bool>, rom: Code, dir: bool, n: nat)
    requires n <= |pre| < 64
    ensures var before := pre + rom[|pre|..];
            var after := before[|pre| := dir];
            && before[|pre|] == rom[|pre|]
            && after == pre + [dir] + rom[|pre| + 1..]
            && after[..n] == before[..n]
  {}

  lemma BitsInjective(a: seq<bv8>, b: seq<bv8>)
    requires |a| == |b| && Bits(a) == Bits(b)
    ensures a == b
  {
    hide BitAt, Bits;
    forall i | 0 <= i < |a|
      ensures a[i] == b[i]
    {
      forall j: nat | j < 8
        ensures BitAt(a[i], j) == BitAt(b[i], j)
      {
        BitOfByte(a, 8 * i + j);
        BitOfByte(b, 8 * i + j);
      }
      ByteFromBits(a[i], b[i]);
    }
  }

  lemma ByteFromBits(a: bv8, b: bv8)
    requires forall j: nat :: j < 8 ==> BitAt(a, j) == BitAt(b, j)
    ensures a == b
  {
    assert BitAt(a, 0) == BitAt(b, 0) && BitAt(a, 1) == BitAt(b, 1) && BitAt(a, 2) == BitAt(b, 2);
    assert BitAt(a, 3) == BitAt(b, 3) && BitAt(a, 4) == BitAt(b, 4) && BitAt(a, 5) == BitAt(b, 5);
    assert BitAt(a, 6) == BitAt(b, 6) && BitAt(a, 7) == BitAt(b, 7);
  }

  lemma TargetBits(f: bv8, bytes: seq<bv8>)
    requires bytes == [f, 0, 0, 0, 0, 0, 0, 0]
    ensures Bits(bytes)[..8] == Bits([f]) && forall k :: 8 <= k < 64 ==> !Bits(bytes)[k]
  {
    forall k | 8 <= k < 64
      ensures !Bits(bytes)[k]
    {
      assert bytes[k / 8] == 0;
    }
  }

  lemma SearchStart(devices: set<Code>, lfd: int)
    ensures devices != {} ==> Heard(devices, []) != {}
    ensures LastZero(devices, []) == 0 && FamilyMark(devices, [], lfd) == lfd
    ensures Crc(0, []) == 0 && Mask(0) == 1
  {
    if devices != {} {
      var d :| d in devices;
      assert d in Heard(devices, []);
    }
  }

  lemma SearchEnd(devices: set<Code>, rom: Code, ld: int, code: Code, bytes: seq<bv8>)
    requires |bytes| == 8 && code == Bits(bytes)
    ensures Walk(devices, rom, ld, code) == code
    ensures Acceptable(code) <==> Crc(0, code[..64]) == 0 && bytes[0] != 0
  {
    hide Crc;
    assert code[..64] == code;
    FamilyByte(bytes);
  }

  lemma FamilyByte(bytes: seq<bv8>)
    requires |bytes| == 8
    ensures bytes[0] != 0 <==> exists i :: 0 <= i < 8 && Bits(bytes)[i]
  {
    if bytes[0] != 0 {
      SomeBit(bytes[0]);
      var i: nat :| i < 8 && BitAt(bytes[0], i);
      assert Bits(bytes)[i];
    }
  }

  lemma SomeBit(b: bv8)
    requires b != 0
    ensures exists i: nat :: i < 8 && BitAt(b, i)
  {
    assert BitAt(b, 0) || BitAt(b, 1) || BitAt(b, 2) || BitAt(b, 3)
        || BitAt(b, 4) || BitAt(b, 5) || BitAt(b, 6) || BitAt(b, 7);
  }

  lemma WalkIsOnBus(devices: set<Code>, rom: Code, ld: int)
    requires devices != {}
    ensures Walk(devices, rom, ld, []) in devices
  {
    assert Heard(devices, []) == devices;
    WalkFindsDevice(devices, rom, ld, []);
  }

  lemma NothingLater(devices: set<Code>, cur: Code)
    ensures (forall d :: d in devices ==> !Less(cur, d)) ==> LaterFamilies(devices, cur) == {}
  {}

  lemma SameDirection(devices: set<Code>, a: Code, b: Code, ld: int, pre: seq<bool>)
    requires |pre| < 64 && a[|pre|] == b[|pre|]
    ensures Direction(devices, a, ld, pre) == Direction(devices, b, ld, pre)
  {}

  lemma SomeoneAnswers(devices: set<Code>, pre: seq<bool>)
    requires |pre| < 64 && Heard(devices, pre) != {}
    ensures !(AllSend(devices, pre, true) && AllSend(devices, pre, false))
  {
    var d :| d in Heard(devices, pre);
    assert AllSend(devices, pre, d[|pre|]) || !AllSend(devices, pre, d[|pre|]);
  }

  /** What one written bit does to the bookkeeping of a search. */
  lemma SearchStep(devices: set<Code>, rom: Code, ld: int, lfd: int, pre: seq<bool>, dir: bool)
    requires |pre| < 64 && Heard(devices, pre) != {} && dir == Direction(devices, rom, ld, pre)
    ensures Heard(devices, pre + [dir]) != {}
    ensures Walk(devices, rom, ld, pre) == Walk(devices, rom, ld, pre + [dir])
    ensures var chosen := !AllSend(devices, pre, true) && !AllSend(devices, pre, false) && !dir;
            && LastZero(devices, pre + [dir]) == (if chosen then |pre| + 1 else LastZero(devices, pre))
            && FamilyMark(devices, pre + [dir], lfd)
               == (if chosen && |pre| < 8 then |pre| + 1 else FamilyMark(devices, pre, lfd))
  {
    DirectionIsHeard(devices, rom, ld, pre);
    var post := pre + [dir];
    assert post[..|post| - 1] == pre;
    var d :| d in Heard(devices, pre);
    assert AllSend(devices, pre, d[|pre|]) || !AllSend(devices, pre, d[|pre|]);
    if |pre| >= 8 {
      assert post[..8] == pre[..8];
    }
    assert ZeroChosen(devices, post, |pre|)
      <==> !AllSend(devices, pre, true) && !AllSend(devices, pre, false) && !dir;
  }

  datatype Call = CallFirst | CallNext | CallVerify | CallTargetSetup(familyCode: bv8) | CallFamilySkipSetup

  /** The search state of the driver. */
  class Searcher {
    const bus: Bus
    const romNo: array<bv8>
    var lastDiscrepancy: int
    var lastFamilyDiscrepancy: int
    var lastDeviceFlag: bool
    var crc8: bv8

    ghost predicate Valid()
      reads this, bus, romNo
    {
      romNo.Length == 8 && bus.Valid()
    }

    /** The 64 bits of the ROM buffer. */
    function Rom(): Code
      requires romNo.Length == 8
      reads romNo
    {
      Bits(romNo[..])
    }

    constructor (bus: Bus)
      requires bus.Valid()
      ensures Valid() && this.bus == bus && fresh(romNo)
    {
      this.bus := bus;
      romNo := new bv8[8];
      lastDiscrepancy, lastFamilyDiscrepancy, lastDeviceFlag, crc8 := 0, 0, false, 0;
    }

    /** The search starts over at the next call. */
    ghost predicate IsReset()
      reads this
    {
      lastDiscrepancy == 0 && !lastDeviceFlag && lastFamilyDiscrepancy == 0
    }

    /** The state left by a search that found the code in the ROM buffer; `lfd` is the family
        discrepancy before it. */
    ghost predicate HasFound(lfd: int)
      requires romNo.Length == 8
      reads this, bus, romNo
    {
      && Acceptable(Rom())
      && lastDiscrepancy == LastZero(bus.devices, Rom())
      && lastDeviceFlag == (lastDiscrepancy == 0)
      && lastFamilyDiscrepancy == FamilyMark(bus.devices, Rom(), lfd)
    }

    /** Extend the CRC by a byte: one look-up does what eight bit-serial steps do. */
    method DoCrc8(value: bv8)
      modifies this`crc8
      ensures crc8 == DscrcTable(old(crc8) ^ value) == Crc(old(crc8), Bits([value]))
    {
      TableIsSerial(crc8, value);
      crc8 := DscrcTable(crc8 ^ value);
    }

    /** Write bit `k` of the ROM buffer through its byte and mask. */
    method PutRomBit(ghost k: nat, byteNumber: nat, mask: bv8, direction: bool)
      requires k < 64 && byteNumber == k / 8 && mask == Mask(k % 8) && romNo.Length == 8
      modifies romNo
      ensures Rom() == old(Rom())[k := direction]
    {
      hide Bits, BitAt, Mask;
      ghost var before := romNo[..];
      var b: bv8;
      if direction {
        b := romNo[byteNumber] | mask;
      } else {
        b := romNo[byteNumber] & !mask;
      }
      BitsAfterPut(before, k, b, direction);
      romNo[byteNumber] := b;
      assert romNo[..] == before[byteNumber := b];
    }

    /** Shift the mask past bit `k`; at the end of a byte accumulate its CRC and go to the next byte. */
    method NextMask(ghost k: nat, byteNumber: nat, mask: bv8) returns (nextByte: nat, nextMask: bv8)
      requires k < 64 && byteNumber == k / 8 && mask == Mask(k % 8) && romNo.Length == 8
      requires crc8 == Crc(0, Rom()[..8 * byteNumber])
      modifies this`crc8
      ensures nextByte == (k + 1) / 8 && nextMask == Mask((k + 1) % 8)
      ensures crc8 == Crc(0, Rom()[..8 * nextByte])
    {
      hide Bits, BitAt, Mask, Crc, DscrcTable;
      MaskNext(k % 8);
      nextByte, nextMask := byteNumber, mask << 1;
      if nextMask == 0 {
        CrcNextByte(Rom(), romNo[..], nextByte);
        DoCrc8(romNo[nextByte]);
        nextByte := nextByte + 1;
        nextMask := 1;
        assert k + 1 == 8 * nextByte;
      } else {
        assert (k + 1) % 8 == k % 8 + 1;
      }
    }

    method GetRomBit(ghost k: nat, byteNumber: nat, mask: bv8) returns (bit: bool)
      requires k < 64 && byteNumber == k / 8 && mask == Mask(k % 8) && romNo.Length == 8
      ensures bit == Rom()[k]
    {
      hide Bits, BitAt, Mask;
      ReadBitThroughMask(romNo[byteNumber], k % 8);
      BitOfByte(romNo[..], k);
      bit := romNo[byteNumber] & mask > 0;
    }

    /** Read a bit and its complement and decide the bit to write; no answer means no device. */
    method AskBit(idBitNumber: nat, lastZeroSoFar: nat, byteNumber: nat, mask: bv8)
      returns (answered: bool, direction: bool, lastZero: nat)
      requires Valid() && bus.phase == SendBit && idBitNumber == |bus.written| + 1 <= 64
      requires byteNumber == |bus.written| / 8 && mask == Mask(|bus.written| % 8)
      modifies this`lastFamilyDiscrepancy, bus`phase
      ensures Valid() && bus.phase == AwaitDirection
      ensures var ones, zeros := AllSend(bus.devices, bus.written, true), AllSend(bus.devices, bus.written, false);
              var chosen := !ones && !zeros && !direction;
              && answered == !(ones && zeros)
              && (answered ==>
                    && direction == Direction(bus.devices, Rom(), lastDiscrepancy, bus.written)
                    && lastZero == (if chosen then idBitNumber else lastZeroSoFar)
                    && lastFamilyDiscrepancy ==
                       (if chosen && idBitNumber < 9 then idBitNumber else old(lastFamilyDiscrepancy)))
    {
      hide Bits, BitAt, Mask, AllSend, Heard;
      answered, direction, lastZero := true, false, lastZeroSoFar;
      var idBit := bus.ReadBit();
      var cmpIdBit := bus.ReadBit();
      if idBit && cmpIdBit {
        answered := false;
      } else if idBit != cmpIdBit {
        direction := idBit;
      } else {
        if idBitNumber < lastDiscrepancy {
          direction := GetRomBit(|bus.written|, byteNumber, mask);
        } else {
          direction := idBitNumber == lastDiscrepancy;
        }
        if !direction {
          lastZero := idBitNumber;
          if lastZero < 9 {
            lastFamilyDiscrepancy := lastZero;
          }
        }
      }
    }

    /** The bookkeeping of a search between two bits: `rom`, `ld` and `lfd` are the ROM buffer and the
        discrepancies it started with. */
    ghost predicate Searching(idBitNumber: nat, lastZero: nat, byteNumber: nat, mask: bv8, rom: Code, ld: int, lfd: int)
      requires romNo.Length == 8
      reads this, bus, romNo
    {
      && Valid() && bus.phase == (if idBitNumber < 65 then SendBit else Silent)
      && 1 <= idBitNumber <= 65 && |bus.written| == idBitNumber - 1
      && byteNumber == (idBitNumber - 1) / 8 && mask == Mask((idBitNumber - 1) % 8)
      && Rom() == bus.written + rom[idBitNumber - 1..]
      && lastDiscrepancy == ld && !lastDeviceFlag
      && lastZero == LastZero(bus.devices, bus.written)
      && lastFamilyDiscrepancy == FamilyMark(bus.devices, bus.written, lfd)
      && crc8 == Crc(0, Rom()[..8 * byteNumber])
      && Heard(bus.devices, bus.written) != {}
      && Walk(bus.devices, rom, ld, []) == Walk(bus.devices, rom, ld, bus.written)
    }

    /** One pass of the search loop. */
    method SearchBit(idBitNumber: nat, lastZeroSoFar: nat, byteNumber: nat, mask: bv8,
                     ghost rom: Code, ghost ld: int, ghost lfd: int)
      returns (answered: bool, lastZero: nat, nextByte: nat, nextMask: bv8)
      requires romNo.Length == 8 && idBitNumber < 65
      requires Searching(idBitNumber, lastZeroSoFar, byteNumber, mask, rom, ld, lfd)
      modifies this`lastFamilyDiscrepancy, this`crc8, romNo, bus
      ensures answered && Searching(idBitNumber + 1, lastZero, nextByte, nextMask, rom, ld, lfd)
    {
      hide Bits, BitAt, Mask, Heard, AllSend, Walk, LastZero, FamilyMark, Direction, Crc;
      ghost var pre := bus.written;
      SomeoneAnswers(bus.devices, pre);
      var direction;
      answered, direction, lastZero := AskBit(idBitNumber, lastZeroSoFar, byteNumber, mask);
      if !answered {
        return;
      }
      PutExtends(pre, rom, direction, 8 * byteNumber);
      SameDirection(bus.devices, Rom(), rom, ld, pre);
      SearchStep(bus.devices, rom, ld, lfd, pre, direction);
      PutRomBit(|pre|, byteNumber, mask, direction);
      bus.WriteBit(direction);
      nextByte, nextMask := NextMask(|pre|, byteNumber, mask);
    }

    method Search() returns (found: bool)
      requires Valid()
      modifies this, romNo, bus
      ensures Valid()
      ensures old(lastDeviceFlag) || bus.devices == {} ==> !found && Rom() == old(Rom())
      ensures !old(lastDeviceFlag) && bus.devices != {} ==>
                && Rom() == Walk(bus.devices, old(Rom()), old(lastDiscrepancy), [])
                && (found <==> Acceptable(Rom()))
      ensures if found then HasFound(old(lastFamilyDiscrepancy)) else IsReset()
    {
      hide Bits, BitAt, Mask, Heard, AllSend, Walk, LastZero, FamilyMark, Direction, Crc, Acceptable;
      var idBitNumber, lastZero, romByteNumber, romByteMask: bv8 := 1, 0, 0, 1;
      found := false;
      crc8 := 0;
      if !lastDeviceFlag {
        var absent := bus.Reset();
        if absent {
          lastDiscrepancy, lastDeviceFlag, lastFamilyDiscrepancy := 0, false, 0;
          return false;
        }
        bus.WriteByte(SEARCH_ROM);
        ghost var rom, ld, lfd := Rom(), lastDiscrepancy, lastFamilyDiscrepancy;
        SearchStart(bus.devices, lfd);
        while romByteNumber < 8
          invariant Searching(idBitNumber, lastZero, romByteNumber, romByteMask, rom, ld, lfd)
          decreases 65 - idBitNumber
        {
          var answered;
          answered, lastZero, romByteNumber, romByteMask :=
            SearchBit(idBitNumber, lastZero, romByteNumber, romByteMask, rom, ld, lfd);
          if !answered {
            break;
          }
          idBitNumber := idBitNumber + 1;
        }
        SearchEnd(bus.devices, rom, ld, bus.written, romNo[..]);
        if !(idBitNumber < 65 || crc8 != 0) {
          lastDiscrepancy := lastZero;
          if lastDiscrepancy == 0 {
            lastDeviceFlag := true;
          }
          found := true;
        }
      }
      if !found || romNo[0] == 0 {
        lastDiscrepancy, lastDeviceFlag, lastFamilyDiscrepancy := 0, false, 0;
        found := false;
      }
    }

    // ---- the public operations

    /** The ROM buffer holds a device of the bus and the search can go on from it. */
    ghost predicate AtDevice()
      requires romNo.Length == 8
      reads this, bus, romNo
    {
      && Rom() in bus.devices
      && lastDiscrepancy == LastZero(bus.devices, Rom())
      && lastDeviceFlag == (lastDiscrepancy == 0)
      && MarkOk(bus.devices, Rom(), lastFamilyDiscrepancy)
    }

    method First() returns (found: bool)
      requires Valid()
      modifies this, romNo, bus
      ensures Valid() && (if found then HasFound(0) else IsReset())
      ensures OnlyAcceptable(bus.devices) ==> (found <==> bus.devices != {})
      ensures OnlyAcceptable(bus.devices) && found ==> AtDevice() && IsFirst(bus.devices, Rom())
    {
      lastDiscrepancy, lastDeviceFlag, lastFamilyDiscrepancy := 0, false, 0;
      ghost var rom := Rom();
      found := Search();
      if bus.devices != {} {
        FirstIsLeast(bus.devices, rom);
      }
    }

    method Next() returns (found: bool)
      requires Valid()
      modifies this, romNo, bus
      ensures Valid() && (if found then HasFound(old(lastFamilyDiscrepancy)) else IsReset())
      ensures old(lastDeviceFlag) || bus.devices == {} ==> !found && Rom() == old(Rom())
      ensures !old(lastDeviceFlag) && bus.devices != {} ==>
                && Rom() == Walk(bus.devices, old(Rom()), old(lastDiscrepancy), [])
                && (found <==> Acceptable(Rom()))
      ensures OnlyAcceptable(bus.devices) && (old(lastFamilyDiscrepancy) == 0 || old(AtDevice())) ==>
                if found then AtDevice() else IsReset()
      ensures OnlyAcceptable(bus.devices) && old(IsReset()) ==>
                && (found <==> bus.devices != {})
                && (found ==> AtDevice() && IsFirst(bus.devices, Rom()))
      ensures OnlyAcceptable(bus.devices) && old(AtDevice()) ==>
                && (found <==> exists d :: d in bus.devices && Less(old(Rom()), d))
                && (if found then AtDevice() && IsNext(bus.devices, old(Rom()), Rom()) else Rom() == old(Rom()))
    {
      hide Bits, Walk, Acceptable, LastZero, Less;
      if bus.devices != {} {
        FirstIsLeast(bus.devices, Rom());
        WalkIsOnBus(bus.devices, Rom(), lastDiscrepancy);
        FreshMark(bus.devices, Walk(bus.devices, Rom(), lastDiscrepancy, []));
      }
      if AtDevice() {
        NextIsSuccessor(bus.devices, Rom());
        if lastDiscrepancy > 0 {
          NextMark(bus.devices, Rom(), lastFamilyDiscrepancy);
        }
      }
      found := Search();
    }

    method SameRom(backup: seq<bv8>) returns (same: bool)
      requires romNo.Length == |backup| == 8
      ensures same <==> romNo[..] == backup
    {
      for i := 0 to 8
        invariant romNo[..i] == backup[..i]
      {
        if backup[i] != romNo[i] {
          return false;
        }
      }
      assert romNo[..] == romNo[..8] && backup == backup[..8];
      return true;
    }

    method RestoreRom(backup: seq<bv8>)
      requires romNo.Length == |backup| == 8
      modifies romNo
      ensures romNo[..] == backup
    {
      for i := 0 to 8
        invariant romNo[..i] == backup[..i]
      {
        romNo[i] := backup[i];
      }
      assert romNo[..] == romNo[..8] && backup == backup[..8];
    }

    /** Is the device whose code is in the ROM buffer present? The search state is left alone. */
    method Verify() returns (present: bool)
      requires Valid()
      modifies this, romNo, bus
      ensures Valid() && romNo[..] == old(romNo[..])
      ensures lastDiscrepancy == old(lastDiscrepancy) && lastDeviceFlag == old(lastDeviceFlag)
      ensures lastFamilyDiscrepancy == old(lastFamilyDiscrepancy)
      ensures present <==> Acceptable(Rom()) && Rom() in bus.devices && (Rom()[63] || Rom()[63 := true] !in bus.devices)
      ensures OnlyAcceptable(bus.devices) ==> (present <==> Rom() in bus.devices)
    {
      hide Bits, Walk, Acceptable, LastZero;
      var backup := romNo[..];
      var ld, flag, lfd := lastDiscrepancy, lastDeviceFlag, lastFamilyDiscrepancy;
      ghost var rom := Rom();
      if bus.devices != {} {
        VerifyWalk(bus.devices, rom);
      }
      lastDiscrepancy := 64;
      lastDeviceFlag := false;
      present := Search();
      if present {
        present := SameRom(backup);
        if Rom() == rom {
          BitsInjective(romNo[..], backup);
        }
      }
      RestoreRom(backup);
      lastDiscrepancy, lastDeviceFlag, lastFamilyDiscrepancy := ld, flag, lfd;
    }

    method TargetSetup(familyCode: bv8)
      requires Valid()
      modifies this, romNo
      ensures Valid() && romNo[..] == [familyCode, 0, 0, 0, 0, 0, 0, 0]
      ensures lastDiscrepancy == 64 && lastFamilyDiscrepancy == 0 && !lastDeviceFlag
    {
      romNo[0] := familyCode;
      for i := 1 to 8
        invariant romNo[0] == familyCode && forall k :: 1 <= k < i ==> romNo[k] == 0
      {
        romNo[i] := 0;
      }
      lastDiscrepancy, lastFamilyDiscrepancy, lastDeviceFlag := 64, 0, false;
    }

    /** The use `TargetSetup` is meant for: find the first device of a family. */
    method FirstOfFamily(familyCode: bv8) returns (found: bool)
      requires Valid() && OnlyAcceptable(bus.devices)
      modifies this, romNo, bus
      ensures Valid() && (if found then AtDevice() else IsReset())
      ensures found <==> bus.devices != {}
      ensures var family := Heard(bus.devices, Bits([familyCode]));
              family != {} ==> IsFirst(family, Rom())
    {
      hide BitAt, Walk, Acceptable, LastZero, Less;
      TargetSetup(familyCode);
      TargetBits(familyCode, romNo[..]);
      TargetWalk(bus.devices, Rom());
      if bus.devices != {} {
        WalkIsOnBus(bus.devices, Rom(), 64);
      }
      found := Next();
    }

    method FamilySkipSetup()
      modifies this
      ensures lastDiscrepancy == old(lastFamilyDiscrepancy) && lastFamilyDiscrepancy == 0 && crc8 == old(crc8)
      ensures lastDeviceFlag == (old(lastDeviceFlag) || old(lastFamilyDiscrepancy) == 0)
    {
      lastDiscrepancy := lastFamilyDiscrepancy;
      lastFamilyDiscrepancy := 0;
      if lastDiscrepancy == 0 {
        lastDeviceFlag := true;
      }
    }

    /** The family discrepancy is left over from an earlier code: there are devices to come, and the bit it
        points to is already 1. */
    predicate StaleFamilyMark()
      requires romNo.Length == 8
      reads this, romNo
    {
      !lastDeviceFlag && 1 <= lastFamilyDiscrepancy <= 8 && Rom()[lastFamilyDiscrepancy - 1]
    }

    /** The use `FamilySkipSetup` is meant for: go on to the next family. It finds the first device of
        the families still to come, or knows that there is none, unless the mark is stale: then there
        is none, but it goes back to a device it has passed. */
    method SkipFamily() returns (found: bool)
      requires Valid() && OnlyAcceptable(bus.devices) && (AtDevice() || IsReset())
      modifies this, romNo, bus
      ensures Valid() && (if found then AtDevice() else IsReset())
      ensures old(IsReset()) ==> !found
      ensures old(AtDevice()) ==>
              var later := LaterFamilies(bus.devices, old(Rom()));
              && (found <==> later != {} || old(StaleFamilyMark()))
              && (later != {} ==> IsFirst(later, Rom()))
              && (old(StaleFamilyMark()) ==> later == {} && (Rom() == old(Rom()) || Less(Rom(), old(Rom()))))
    {
      hide Bits, Walk, Acceptable, LastZero, Less, IsFirst;
      if AtDevice() {
        ghost var cur := Rom();
        FamilySkipWalk(bus.devices, cur);
        WalkIsOnBus(bus.devices, cur, lastFamilyDiscrepancy);
        MarkBit(bus.devices, cur, lastFamilyDiscrepancy);
        if StaleFamilyMark() {
          WalkGoesBack(bus.devices, cur, lastFamilyDiscrepancy);
        }
        NextIsSuccessor(bus.devices, cur);
        NothingLater(bus.devices, cur);
      }
      FamilySkipSetup();
      found := Next();
    }

    /** Any sequence of calls, with the setups anywhere in it. As long as the family discrepancy is 0 or in
        order, a search that finds something finds a device of the bus, with discrepancies that let the
        search go on from it; one that finds nothing leaves the search reset. */
    method Perform(calls: seq<Call>) returns (found: bool)
      requires Valid() && OnlyAcceptable(bus.devices) && (AtDevice() || lastFamilyDiscrepancy == 0)
      modifies this, romNo, bus
      ensures Valid() && (AtDevice() || lastFamilyDiscrepancy == 0)
      ensures |calls| > 0 && (calls[|calls| - 1].CallFirst? || calls[|calls| - 1].CallNext?) ==>
                if found then AtDevice() else IsReset()
    {
      hide Bits, Walk, Acceptable, LastZero, Less, MarkOk, IsFirst, IsNext;
      found := false;
      for i := 0 to |calls|
        invariant Valid() && (AtDevice() || lastFamilyDiscrepancy == 0)
        invariant i > 0 && (calls[i - 1].CallFirst? || calls[i - 1].CallNext?) ==>
                    if found then AtDevice() else IsReset()
      {
        match calls[i] {
          case CallFirst => found := First();
          case CallNext => found := Next();
          case CallVerify => found := Verify();
          case CallTargetSetup(familyCode) => TargetSetup(familyCode);
          case CallFamilySkipSetup => FamilySkipSetup();
        }
      }
    }

    /** List the bus: every device exactly once, in ascending order, and nothing else. */
    method ScanBus() returns (codes: seq<Code>)
      requires Valid() && OnlyAcceptable(bus.devices)
      modifies this, romNo, bus
      ensures Valid() && IsReset()
      ensures forall i, j :: 0 <= i < j < |codes| ==> Less(codes[i], codes[j])
      ensures forall d :: d in bus.devices <==> d in codes
      ensures |codes| == |bus.devices|
    {
      hide Bits, Walk, Acceptable, LastZero, Less, IsFirst, IsNext;
      codes := [];
      ghost var rest := bus.devices;
      var found := First();
      while found
        invariant Valid() && OnlyAcceptable(bus.devices) && Scanned(bus.devices, codes, rest)
        invariant if found then AtDevice() && IsFirst(rest, Rom()) else IsReset() && rest == {}
        decreases |rest|
      {
        ScanStep(bus.devices, codes, rest, Rom());
        FirstIsMember(rest, Rom());
        codes := codes + [Rom()];
        rest := rest - {Rom()};
        found := Next();
      }
    }
  }

  /** The family discrepancy after the bits `pre` of a search that started with `lfd`: the last 0
      chosen among the first eight bits, or the old value. */
  ghost function FamilyMark(devices: set<Code>, pre: seq<bool>, lfd: int): int
    requires |pre| <= 64
  {
    var z := LastZero(devices, if |pre| <= 8 then pre else pre[..8]);
    if z > 0 then z else lfd
  }

  /** What is left in the family discrepancy while devices are listed: the last 0 chosen among the first
      eight bits, or, if there is none, the position of a 1 among them. */
  ghost predicate MarkOk(devices: set<Code>, cur: Code, mark: int) {
    var z := LastZero(devices, cur[..8]);
    mark == z || (z == 0 && 1 <= mark <= 8 && cur[mark - 1])
  }

  /** Without an old value the mark is right. */
  lemma FreshMark(devices: set<Code>, cur: Code)
    ensures FamilyMark(devices, cur, 0) == LastZero(devices, cur[..8])
    ensures MarkOk(devices, cur, FamilyMark(devices, cur, 0))
  {}

  /** A continued search keeps the mark in order. */
  lemma NextMark(devices: set<Code>, prev: Code, mark: int)
    requires prev in devices && LastZero(devices, prev) > 0 && MarkOk(devices, prev, mark)
    ensures var cur := Walk(devices, prev, LastZero(devices, prev), []);
            MarkOk(devices, cur, FamilyMark(devices, cur, mark))
  {
    hide Walk, LastZero;
    var ld := LastZero(devices, prev);
    var cur := Walk(devices, prev, ld, []);
    var p := ld - 1;
    assert prev[..64] == prev;
    WalkTurns(devices, prev, 64);
    if p >= 8 {
      assert cur[..8] == cur[..p][..8] == prev[..p][..8] == prev[..8];
    } else {
      LastZeroOfFront(devices, prev, 8);
    }
  }

  /** The bit a mark points to tells whether it is right. */
  lemma MarkBit(devices: set<Code>, cur: Code, mark: int)
    requires MarkOk(devices, cur, mark)
    ensures mark == LastZero(devices, cur[..8]) <==> !(1 <= mark <= 8 && cur[mark - 1])
  {
    LastZeroIsLast(devices, cur[..8]);
  }

  // ---- a bus on which a family mark goes stale

  /** The ROM code with family byte `family` and serial number `serial`. */
  function CodeOf(family: bv8, serial: bv8): Code {
    var bytes := [family, serial, 0, 0, 0, 0, 0];
    Bits(bytes + [TableCrc(bytes)])
  }

  lemma CodeOfIsAcceptable(family: bv8, serial: bv8)
    requires family != 0
    ensures Acceptable(CodeOf(family, serial))
    ensures forall i :: 0 <= i < 16 ==> CodeOf(family, serial)[i] == BitAt(if i < 8 then family else serial, i % 8)
  {
    hide DscrcTable, BitAt, TableCrc, Crc;
    var bytes := [family, serial, 0, 0, 0, 0, 0];
    CrcZeroIffTrailer(bytes, TableCrc(bytes));
    TableCrcIsSerial(bytes + [TableCrc(bytes)]);
    FamilyByte(bytes + [TableCrc(bytes)]);
  }

  /** One device of family 2 and two of family 1: after `First` and `Next` the state is at the first
      device of the last family, with a mark left over from the family before it. */
  lemma StaleMarkIsReachable() returns (devices: set<Code>, first: Code, cur: Code)
    ensures OnlyAcceptable(devices) && IsFirst(devices, first) && IsNext(devices, first, cur)
    ensures LastZero(devices, cur) != 0
    ensures var mark := FamilyMark(devices, cur, FamilyMark(devices, first, 0)); 1 <= mark <= 8 && cur[mark - 1]
  {
    hide DscrcTable, TableCrc, Crc, Bits, CodeOf, Acceptable, BitAt;
    first, cur := CodeOf(2, 0), CodeOf(1, 0);
    var other := CodeOf(1, 1);
    devices := {first, cur, other};
    CodeOfIsAcceptable(2, 0);
    CodeOfIsAcceptable(1, 0);
    CodeOfIsAcceptable(1, 1);
    SmallBytes();
    assert FirstDifference(first, cur, 0) && FirstDifference(first, other, 0);
    assert cur[..8] == other[..8];
    assert FirstDifference(cur, other, 8);
    StaleMark(devices, first, cur, other);
  }

  lemma SmallBytes()
    ensures forall i: nat :: i < 8 ==> !BitAt(0, i) && BitAt(1, i) == (i == 0) && BitAt(2, i) == (i == 1)
  {}

  lemma StaleMark(devices: set<Code>, first: Code, cur: Code, other: Code)
    requires devices == {first, cur, other}
    requires !first[0] && cur[0] && other[0] && cur[..8] == other[..8] && FirstDifference(cur, other, 8)
    ensures LastZero(devices, cur) != 0
    ensures FamilyMark(devices, cur, FamilyMark(devices, first, 0)) == 1
  {
    hide LastZero;
    var front := first[..8];
    LastZeroIsLast(devices, front);
    assert forall q :: 1 <= q < 8 ==> !ZeroChosen(devices, front, q);
    assert cur in Heard(devices, front[..0]);
    assert ZeroChosen(devices, front, 0);
    LastZeroIsLast(devices, cur);
    assert other in Heard(devices, cur[..8]);
    assert ZeroChosen(devices, cur, 8);
    LastZeroIsLast(devices, cur[..8]);
    forall q | 0 <= q < 8
      ensures !ZeroChosen(devices, cur[..8], q)
    {
      if !cur[q] {
        assert first !in Heard(devices, cur[..q]);
        assert other[q] == other[..8][q] == cur[..8][q];
      }
    }
  }

  // ---- a bus on which a device is missed

  lemma TableCrcNext(bytes: seq<bv8>, b: bv8)
    ensures TableCrc(bytes + [b]) == DscrcTable(TableCrc(bytes) ^ b)
  {
    hide DscrcTable;
    assert (bytes + [b])[..|bytes|] == bytes;
  }

  lemma LookUps()
    ensures DscrcTable(1) == 94 && DscrcTable(94) == 196 && DscrcTable(196) == 171 && DscrcTable(171) == 143
         && DscrcTable(143) == 205 && DscrcTable(205) == 55 && DscrcTable(55) == 61
  {}

  lemma CrcOfCode()
    ensures TableCrc([1, 0, 0, 0, 0, 0, 0]) == 61
  {
    LookUps();
    hide DscrcTable, TableCrc;
    NoCrc();
    var s1: seq<bv8> := [] + [1];
    TableCrcNext([], 1);
    var s2 := s1 + [0];
    TableCrcNext(s1, 0);
    var s3 := s2 + [0];
    TableCrcNext(s2, 0);
    var s4 := s3 + [0];
    TableCrcNext(s3, 0);
    var s5 := s4 + [0];
    TableCrcNext(s4, 0);
    var s6 := s5 + [0];
    TableCrcNext(s5, 0);
    var s7 := s6 + [0];
    TableCrcNext(s6, 0);
    assert s7 == [1, 0, 0, 0, 0, 0, 0];
  }

  lemma NoCrc()
    ensures TableCrc([]) == 0
  {}

  /** A device whose code ends in 0 is missed by `Verify` when the bus also holds the code that ends in 1
      instead; the latter has a wrong CRC. */
  method VerifyMisses() returns (s: Searcher, present: bool)
    ensures s.romNo.Length == 8 && Acceptable(s.Rom()) && s.Rom() in s.bus.devices && !present
  {
    hide BitAt, Crc, Acceptable, DscrcTable, TableCrc;
    var bytes: seq<bv8> := [1, 0, 0, 0, 0, 0, 0, 61];
    CrcOfCode();
    CodeOfIsAcceptable(1, 0);
    BitOfByte(bytes, 63);
    EndsInZero();
    var rom := Bits(bytes);
    assert [1 as bv8, 0, 0, 0, 0, 0, 0] + [61] == bytes;
    var bus := new Bus({rom, rom[63 := true]});
    s := new Searcher(bus);
    s.RestoreRom(bytes);
    present := s.Verify();
  }

  lemma EndsInZero()
    ensures !BitAt(61, 7)
  {}
}
