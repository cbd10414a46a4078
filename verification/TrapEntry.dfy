/** The runtime environment's trap entry and exit: save the registers, dispatch to the installed
    handler, let it edit the saved frame, and restore. */
module TrapEntry {
  import opened Words

  /** Set in the trap code of an interrupt. */
  const INTERRUPT := 0x8000_0000

  const PANIC: nat := 0

  /** Trap codes: the interrupt bit and five bits of cause. */
  predicate ValidCode(code: nat) {
    code < M32 && code % INTERRUPT < 32
  }

  /** Exceptions 0 to 31 and interrupts 0 to 31. */
  lemma CodeRanges(code: nat)
    ensures ValidCode(code) <==> code < 32 || 0x8000_0000 <= code < 0x8000_0020
  {}

  // ---- the vector table

  /** The handlers by interrupt bit and cause. */
  class VectorTable {
    const lut: array2<nat>

    ghost predicate Valid() {
      lut.Length0 == 2 && lut.Length1 == 32
    }

    constructor ()
      ensures Valid() && fresh(lut)
    {
      lut := new nat[2, 32];
    }

    ghost function HandlerOf(code: nat): nat
      requires Valid() && ValidCode(code)
      reads lut
    {
      lut[code / INTERRUPT, code % 32]
    }

    /** Fill the table with the panic handler; only core 0 does. */
    method Setup(hart: nat)
      requires Valid()
      modifies lut
      ensures forall code :: ValidCode(code) ==> HandlerOf(code) == if hart == 0 then PANIC else old(HandlerOf(code))
    {
      if hart == 0 {
        for i := 0 to 32
          invariant forall r, k :: 0 <= r < 2 && 0 <= k < i ==> lut[r, k] == PANIC
        {
          lut[0, i] := PANIC;
          lut[1, i] := PANIC;
        }
      }
    }

    method Install(code: nat, handler: nat) returns (rc: int)
      requires Valid() && code < M32
      modifies lut
      ensures rc == if code < 32 || 0x8000_0000 <= code < 0x8000_0020 then 0 else -1
      ensures forall c :: ValidCode(c) ==> HandlerOf(c) == if c == code then handler else old(HandlerOf(c))
    {
      CodeRanges(code);
      if code % INTERRUPT >= 32 {
        return -1;
      }
      lut[code / INTERRUPT, code % 32] := handler;
      CodesDistinct(code);
      return 0;
    }

    method Uninstall(code: nat) returns (rc: int)
      requires Valid() && code < M32
      modifies lut
      ensures rc == if code < 32 || 0x8000_0000 <= code < 0x8000_0020 then 0 else -1
      ensures forall c :: ValidCode(c) ==> HandlerOf(c) == if c == code then PANIC else old(HandlerOf(c))
    {
      rc := Install(code, PANIC);
    }

    /** The word at a byte offset into the table. */
    method LoadAt(offset: nat) returns (word: nat)
      requires Valid() && offset % 4 == 0 && offset / 4 < 64
      ensures word == lut[offset / 4 / 32, offset / 4 % 32]
    {
      word := lut[offset / 4 / 32, offset / 4 % 32];
    }

    /** Perform table operations in order. */
    method Perform(ops: seq<TableOp>)
      requires Valid() && forall op :: op in ops && !op.Setup? ==> op.code < M32
      modifies lut
      ensures forall code :: ValidCode(code) ==> HandlerOf(code) == LastInstalled(ops, code, old(HandlerOf(code)))
    {
      for i := 0 to |ops|
        invariant forall code :: ValidCode(code) ==>
                    HandlerOf(code) == LastInstalled(ops[..i], code, old(HandlerOf(code)))
      {
        assert ops[..i + 1][..i] == ops[..i];
        match ops[i]
        case Setup(hart) => Setup(hart);
        case Install(code, handler) => var _ := Install(code, handler);
        case Uninstall(code) => var _ := Uninstall(code);
      }
      assert ops[..|ops|] == ops;
    }
  }

  datatype TableOp = Setup(hart: nat) | Install(code: nat, handler: nat) | Uninstall(code: nat)

  /** The handler last installed for `code`: the panic handler after an uninstall or a setup on core 0. */
  ghost function LastInstalled(ops: seq<TableOp>, code: nat, initial: nat): nat {
    if |ops| == 0 then initial
    else
      var before := LastInstalled(ops[..|ops| - 1], code, initial);
      match ops[|ops| - 1]
      case Setup(hart) => if hart == 0 then PANIC else before
      case Install(c, handler) => if c == code then handler else before
      case Uninstall(c) => if c == code then PANIC else before
  }

  /** The table operation sets the handler of `code`. */
  predicate Sets(op: TableOp, code: nat) {
    match op case Setup(hart) => hart == 0 case Install(c, _) => c == code case Uninstall(c) => c == code
  }

  /** The last operation that sets the handler decides, if there is one. */
  lemma {:induction false} LastInstalledMeans(ops: seq<TableOp>, code: nat, initial: nat)
    ensures (forall op :: op in ops ==> !Sets(op, code)) ==> LastInstalled(ops, code, initial) == initial
    ensures forall i :: 0 <= i < |ops| && Sets(ops[i], code) && (forall j :: i < j < |ops| ==> !Sets(ops[j], code)) ==>
              LastInstalled(ops, code, initial) == if ops[i].Install? then ops[i].handler else PANIC
  {
    if |ops| > 0 {
      LastInstalledMeans(ops[..|ops| - 1], code, initial);
      assert ops[|ops| - 1] in ops;
    }
  }

  lemma CodesDistinct(code: nat)
    requires ValidCode(code)
    ensures forall c: nat :: ValidCode(c) && c / INTERRUPT == code / INTERRUPT && c % 32 == code % 32 ==> c == code
  {}

  /** The byte offset computed from a trap code selects its entry in the table. */
  lemma TableOffset(code: nat)
    requires ValidCode(code)
    ensures var offset := code % 32 * 4 + code / 0x100_0000;
            offset % 4 == 0 && offset / 4 < 64 && offset / 4 / 32 == code / INTERRUPT && offset / 4 % 32 == code % 32
  {
    var b, c := code / INTERRUPT, code % INTERRUPT;
    assert code == INTERRUPT * b + c && b < 2;
    assert code / 0x100_0000 == 128 * b && code % 32 == c;
  }

  /** Instructions are compressed unless their two lowest bits are set. */
  lemma LowBits(r: nat)
    requires r < 4
    ensures Wrap(r - 3) != 0 <==> r != 3
  {}

  // ---- the saved frame

  /** Address of the slot of register `r` in the frame at `base`. */
  function Slot(base: nat, r: nat): nat {
    (base + 4 * r) % M32
  }

  /** Register `r` lies `4 * r` bytes behind the base, also where the addresses wrap. */
  lemma SlotDistance(base: int, r: nat)
    requires r < 32
    ensures (Slot(Wrap(base), r) - base) % M32 == 4 * r
  {
    var q, b := base / M32, base % M32;
    var k, s := (b + 4 * r) / M32, (b + 4 * r) % M32;
    assert s - base == M32 * (-k - q) + 4 * r;
  }

  lemma SlotsDistinct(base: nat)
    ensures forall r: nat, s: nat :: r < 32 && s < 32 && Slot(base, r) == Slot(base, s) ==> r == s
  {}

  /** What a handler may do to the machine: use registers other than x0 and sp, write words outside the
      frame, change the return address, and edit the frame through `context_put`. */
  datatype HandlerOp =
    SetReg(r: nat, value: nat) | Store(addr: nat, value: nat) | SetMepc(value: nat) | Put(x: int, data: nat)

  /** The value of register `r` in the frame after the handler: the last one put, else the original. */
  function LastPut(ops: seq<HandlerOp>, n: nat, r: nat, original: nat): nat
    requires n > 0
  {
    if |ops| == 0 then original
    else if ops[|ops| - 1].Put? && ops[|ops| - 1].x % n == r then ops[|ops| - 1].data
    else LastPut(ops[..|ops| - 1], n, r, original)
  }

  predicate PutsFor(op: HandlerOp, n: nat, r: nat)
    requires n > 0
    ensures PutsFor(op, n, r) ==> op.Put?
  {
    op.Put? && op.x % n == r
  }

  lemma LastPutNext(ops: seq<HandlerOp>, n: nat, r: nat, original: nat)
    requires n > 0
    ensures LastPut(ops, n, r, original) ==
            if |ops| == 0 then original
            else if PutsFor(ops[|ops| - 1], n, r) then ops[|ops| - 1].data
            else LastPut(ops[..|ops| - 1], n, r, original)
  {}

  /** The last value put for the register, if there is one; register numbers count modulo the frame size. */
  lemma {:induction false} LastPutMeans(ops: seq<HandlerOp>, n: nat, r: nat, original: nat)
    requires n > 0
    ensures (forall op :: op in ops ==> !PutsFor(op, n, r)) ==> LastPut(ops, n, r, original) == original
    ensures forall i :: 0 <= i < |ops| && PutsFor(ops[i], n, r)
                        && (forall j :: i < j < |ops| ==> !PutsFor(ops[j], n, r)) ==>
              LastPut(ops, n, r, original) == ops[i].data
  {
    hide PutsFor, LastPut;
    LastPutNext(ops, n, r, original);
    if |ops| > 0 {
      assert ops[|ops| - 1] in ops;
      LastPutMeans(ops[..|ops| - 1], n, r, original);
    }
  }

  /** The last value stored at the address, if there is one. */
  lemma {:induction false} LastStoreMeans(ops: seq<HandlerOp>, addr: nat, original: nat)
    ensures (forall op :: op in ops && op.Store? ==> op.addr != addr) ==> LastStore(ops, addr, original) == original
    ensures forall i :: 0 <= i < |ops| && ops[i].Store? && ops[i].addr == addr
                        && (forall j :: i < j < |ops| && ops[j].Store? ==> ops[j].addr != addr) ==>
              LastStore(ops, addr, original) == ops[i].value
  {
    if |ops| > 0 {
      LastStoreMeans(ops[..|ops| - 1], addr, original);
    }
  }

  /** The last return address set, if there is one. */
  lemma {:induction false} LastMepcMeans(ops: seq<HandlerOp>, original: nat)
    ensures (forall op :: op in ops ==> !op.SetMepc?) ==> LastMepc(ops, original) == original
    ensures forall i :: 0 <= i < |ops| && ops[i].SetMepc? && (forall j :: i < j < |ops| ==> !ops[j].SetMepc?) ==>
              LastMepc(ops, original) == ops[i].value
  {
    if |ops| > 0 {
      LastMepcMeans(ops[..|ops| - 1], original);
    }
  }

  /** The frame after the handler's puts; x0 has no slot. */
  function Edited(ops: seq<HandlerOp>, frame: seq<nat>): (after: seq<nat>)
    ensures |after| == |frame|
  {
    if |ops| == 0 || |frame| == 0 then frame
    else
      var before := Edited(ops[..|ops| - 1], frame);
      var op := ops[|ops| - 1];
      if op.Put? && op.x % |frame| != 0 then before[op.x % |frame| := op.data] else before
  }

  lemma {:induction false} EditedIsLastPut(ops: seq<HandlerOp>, frame: seq<nat>, r: nat)
    requires 1 <= r < |frame|
    ensures Edited(ops, frame)[r] == LastPut(ops, |frame|, r, frame[r])
  {
    if |ops| > 0 {
      EditedIsLastPut(ops[..|ops| - 1], frame, r);
    }
  }

  /** The word at `addr`, which is no frame slot, after the handler. */
  function LastStore(ops: seq<HandlerOp>, addr: nat, original: nat): nat {
    if |ops| == 0 then original
    else if ops[|ops| - 1].Store? && ops[|ops| - 1].addr == addr then ops[|ops| - 1].value
    else LastStore(ops[..|ops| - 1], addr, original)
  }

  function LastMepc(ops: seq<HandlerOp>, original: nat): nat {
    if |ops| == 0 then original
    else if ops[|ops| - 1].SetMepc? then ops[|ops| - 1].value
    else LastMepc(ops[..|ops| - 1], original)
  }

  /** A core with 16 or 32 registers, its trap registers and the words of memory. */
  class Hart {
    const n: nat
    const compressed: bool
    const tableBase: nat
    const returnAddress: nat
    var x: seq<nat>
    var mem: map<nat, nat>
    var mscratch: nat
    var mcause: nat
    var mepc: nat
    var mtinst: nat

    ghost predicate Valid()
      reads this
    {
      (n == 16 || n == 32) && |x| == n && x[0] == 0 && x[2] < M32 && ValidCode(mcause) && mscratch < M32
    }

    constructor (n: nat, compressed: bool, tableBase: nat, returnAddress: nat)
      requires n == 16 || n == 32
      ensures Valid() && this.n == n && this.compressed == compressed
    {
      this.n, this.compressed, this.tableBase, this.returnAddress := n, compressed, tableBase, returnAddress;
      x, mem := seq(n, _ => 0), map[];
      mscratch, mcause, mepc, mtinst := 0, 0, 0, 0;
    }

    function Load(addr: nat): nat
      reads this`mem
    {
      if addr in mem then mem[addr] else 0
    }

    /** The frame at `base` holds `frame[r]` for every register but x0. */
    ghost predicate Holds(base: nat, frame: seq<nat>)
      reads this`mem
    {
      |frame| == n && forall r :: 1 <= r < n ==> Load(Slot(base, r)) == frame[r]
    }

    /** No slot of the frame at `base` is at address `a`. */
    ghost predicate Outside(base: nat, a: nat) {
      forall r: nat :: 1 <= r < n ==> a != Slot(base, r)
    }

    /** The frame lies in the `4 * n` bytes from its base on. */
    lemma BehindFrame(base: int, a: nat)
      requires n <= 32 && a < M32 && (a - base) % M32 >= 4 * n
      ensures Outside(Wrap(base), a)
    {
      forall r: nat | 1 <= r < n
        ensures a != Slot(Wrap(base), r)
      {
        SlotDistance(base, r);
      }
    }

    lemma FrameAt(base: nat, frame: seq<nat>)
      requires Holds(base, frame)
      ensures |frame| == n && forall r: nat :: 1 <= r < n ==> Load((base + 4 * r) % M32) == frame[r]
    {
      forall r: nat | 1 <= r < n
        ensures Load((base + 4 * r) % M32) == frame[r]
      {
        assert Load(Slot(base, r)) == frame[r];
      }
    }

    /** Store a register in its slot. */
    method StoreWord(base: nat, r: nat, value: nat)
      requires 1 <= r < n <= 32
      modifies this`mem
      ensures Load(Slot(base, r)) == value
      ensures forall s: nat :: s < 32 && s != r ==> Load(Slot(base, s)) == old(Load(Slot(base, s)))
      ensures forall a: nat :: Outside(base, a) ==> Load(a) == old(Load(a))
    {
      SlotsDistinct(base);
      hide Slot;
      mem := mem[Slot(base, r) := value];
    }

    /** Save every register: x1 and the old stack pointer with the help of `mscratch`, then the others. */
    method SaveRegisters()
      requires Valid()
      modifies this`x, this`mem, this`mscratch
      ensures Valid() && x[2] == mscratch == Wrap(old(x[2]) - 4 * n)
      ensures Holds(mscratch, old(x))
      ensures forall a: nat :: Outside(mscratch, a) ==> Load(a) == old(Load(a))
    {
      hide Slot, Wrap;
      ghost var frame := x;
      mscratch := x[2];
      x := x[2 := Wrap(x[2] as int - 4 * n)];
      StoreWord(x[2], 1, x[1]);
      var swapped := mscratch;
      mscratch := x[2];
      x := x[1 := swapped];
      StoreWord(x[2], 2, x[1]);
      assert forall r: nat :: 1 <= r < 3 ==> Load(Slot(mscratch, r)) == frame[r];
      for i := 3 to n
        invariant |x| == n && x[0] == 0 && x[2] == mscratch && forall r :: 3 <= r < n ==> x[r] == frame[r]
        invariant mscratch == Wrap(frame[2] - 4 * n)
        invariant forall r: nat :: 1 <= r < i ==> Load(Slot(mscratch, r)) == frame[r]
        invariant forall a: nat :: Outside(mscratch, a) ==> Load(a) == old(Load(a))
      {
        StoreWord(x[2], i, x[i]);
      }
    }

    /** The entry code up to the call of the handler: the `4 * n` bytes below the old stack pointer, and
        nothing else in memory, become the frame, with register `r` at `4 * r`. */
    method Save()
      requires Valid()
      modifies this`x, this`mem, this`mscratch
      ensures Valid() && x[2] == mscratch == Wrap(old(x[2]) - 4 * n)
      ensures Holds(mscratch, old(x))
      ensures forall a: nat :: Outside(mscratch, a) ==> Load(a) == old(Load(a))
      ensures forall r: nat :: 1 <= r < n ==> Load((mscratch + 4 * r) % M32) == old(x[r])
      ensures forall a: nat :: a < M32 && (a - (old(x[2]) - 4 * n)) % M32 >= 4 * n ==> Load(a) == old(Load(a))
    {
      hide Slot, Outside, Wrap, Holds;
      ghost var frame, base := x, x[2] - 4 * n;
      SaveRegisters();
      FrameAt(mscratch, frame);
      forall a: nat | a < M32 && (a - base) % M32 >= 4 * n
        ensures Load(a) == old(Load(a))
      {
        BehindFrame(base, a);
      }
    }

    method ContextGet(reg: int, ghost frame: seq<nat>) returns (value: nat)
      requires Valid() && Holds(mscratch, frame)
      ensures value == if reg % n == 0 then 0 else frame[reg % n]
      ensures reg % n != 0 ==> value == Load((mscratch + 4 * (reg % n)) % M32)
    {
      var tmp := reg % n;
      if tmp != 0 {
        return Load(Slot(mscratch, tmp));
      }
      return 0;
    }

    method ContextPut(reg: int, data: nat, ghost frame: seq<nat>)
      requires Valid() && Holds(mscratch, frame)
      modifies this`mem
      ensures Valid() && Holds(mscratch, if reg % n == 0 then frame else frame[reg % n := data])
      ensures forall a: nat :: Outside(mscratch, a) ==> Load(a) == old(Load(a))
      ensures reg % n != 0 ==> Load((mscratch + 4 * (reg % n)) % M32) == data
    {
      var tmp := reg % n;
      if tmp != 0 {
        StoreWord(mscratch, tmp, data);
      }
    }

    /** What a well-behaved handler does: it leaves sp alone and writes no frame slot directly. */
    ghost predicate Behaved(ops: seq<HandlerOp>, base: nat) {
      forall op :: op in ops ==>
        && (op.SetReg? ==> op.r < n && op.r != 0 && op.r != 2)
        && (op.Store? ==> Outside(base, op.addr))
    }

    /** Any well-behaved handler, as the sequence of its effects. */
    method RunHandler(ops: seq<HandlerOp>, ghost frame: seq<nat>)
      requires Valid() && Holds(mscratch, frame) && x[2] == mscratch && Behaved(ops, mscratch)
      modifies this`x, this`mem, this`mepc
      ensures Valid() && x[2] == mscratch
      ensures Holds(mscratch, Edited(ops, frame)) && mepc == LastMepc(ops, old(mepc))
      ensures forall a: nat :: Outside(mscratch, a) ==> Load(a) == LastStore(ops, a, old(Load(a)))
    {
      hide Slot;
      for i := 0 to |ops|
        invariant Valid() && x[2] == mscratch
        invariant Holds(mscratch, Edited(ops[..i], frame)) && mepc == LastMepc(ops[..i], old(mepc))
        invariant forall a: nat :: Outside(mscratch, a) ==> Load(a) == LastStore(ops[..i], a, old(Load(a)))
      {
        assert ops[..i + 1][..i] == ops[..i];
        match ops[i]
        case SetReg(r, value) => x := x[r := value];
        case Store(addr, value) => mem := mem[addr := value];
        case SetMepc(value) => mepc := value;
        case Put(reg, data) => ContextPut(reg, data, Edited(ops[..i], frame));
      }
      assert ops[..|ops|] == ops;
    }

    /** Compute the table offset of the trap cause, load the handler's address and jump there. */
    method Dispatch(table: VectorTable) returns (handler: nat)
      requires Valid() && table.Valid()
      modifies this`x
      ensures Valid() && x[2] == old(x[2]) && handler == table.HandlerOf(mcause)
    {
      x := x[10 := mcause];
      x := x[11 := x[10] / 0x100_0000];
      x := x[12 := x[10] % 32];
      x := x[12 := x[12] * 4];
      x := x[12 := x[12] + x[11]];
      x := x[10 := tableBase];
      x := x[12 := x[12] + x[10]];
      TableOffset(mcause);
      handler := table.LoadAt(x[12] - tableBase);
      x := x[12 := handler];
      x := x[1 := returnAddress];
    }

    /** The exit code skips the instruction that raised an exception, but not after an interrupt. */
    method AdjustMepc()
      requires Valid()
      modifies this`x, this`mepc
      ensures Valid() && x[2] == old(x[2])
      ensures mepc == if mcause >= INTERRUPT then old(mepc)
                      else Wrap(old(mepc) + if compressed && mtinst % 4 != 3 then 2 else 4)
    {
      hide Wrap;
      WrapWrap(mepc + 4, -2);
      LowBits(mtinst % 4);
      x := x[10 := mcause];
      if x[10] < INTERRUPT {
        x := x[10 := Wrap(mepc + 4)];
        if compressed {
          x := x[11 := Wrap(mtinst % 4 - 3)];
          if x[11] != 0 {
            x := x[10 := Wrap(x[10] as int - 2)];
          }
        }
        mepc := x[10];
      }
    }

    /** Restore every register from the frame, the stack pointer last. */
    method Restore(ghost frame: seq<nat>)
      requires Valid() && Holds(x[2], frame)
      modifies this`x
      ensures |x| == n && x[0] == 0 && forall r :: 1 <= r < n ==> x[r] == frame[r]
    {
      hide Slot;
      var base := x[2];
      x := x[1 := Load(Slot(base, 1))];
      for i := 3 to n
        invariant |x| == n && x[0] == 0 && x[2] == base && x[1] == frame[1]
        invariant forall r :: 3 <= r < i ==> x[r] == frame[r]
      {
        x := x[i := Load(Slot(x[2], i))];
      }
      x := x[2 := Load(Slot(base, 2))];
    }

    /** A trap: entry code, the installed handler, exit code. */
    method TakeTrap(table: VectorTable, handlers: map<nat, seq<HandlerOp>>)
      requires Valid() && table.Valid() && table.HandlerOf(mcause) in handlers
      requires Behaved(handlers[table.HandlerOf(mcause)], Wrap(x[2] - 4 * n))
      modifies this`x, this`mem, this`mscratch, this`mepc
      ensures var ops := handlers[table.HandlerOf(mcause)];
              && |x| == n && x[0] == 0
              && (forall r :: 1 <= r < n ==> x[r] == LastPut(ops, n, r, old(x[r])))
              && (forall a: nat :: Outside(Wrap(old(x[2]) - 4 * n), a) ==> Load(a) == LastStore(ops, a, old(Load(a))))
              && mepc == (var m := LastMepc(ops, old(mepc));
                          if mcause >= INTERRUPT then m
                          else Wrap(m + if compressed && mtinst % 4 != 3 then 2 else 4))
    {
      hide Slot, Wrap;
      ghost var frame := x;
      SaveRegisters();
      var handler := Dispatch(table);
      var ops := handlers[handler];
      RunHandler(ops, frame);
      AdjustMepc();
      Restore(Edited(ops, frame));
      forall r | 1 <= r < n
        ensures x[r] == LastPut(ops, n, r, frame[r])
      {
        EditedIsLastPut(ops, frame, r);
      }
    }

    /** After a trap every register has the value the handler last put into the context, or its old one; all
        memory but the `4 * n` bytes below the stack pointer is as the handler left it; the return address
        moves past the instruction for exceptions only. */
    method Trap(table: VectorTable, handlers: map<nat, seq<HandlerOp>>)
      requires Valid() && table.Valid() && table.HandlerOf(mcause) in handlers
      requires Behaved(handlers[table.HandlerOf(mcause)], Wrap(x[2] - 4 * n))
      modifies this`x, this`mem, this`mscratch, this`mepc
      ensures var ops := handlers[table.HandlerOf(mcause)];
              && |x| == n && x[0] == 0
              && (forall r :: 1 <= r < n ==> x[r] == LastPut(ops, n, r, old(x[r])))
              && (forall a: nat :: a < M32 && (a - (old(x[2]) - 4 * n)) % M32 >= 4 * n ==>
                    Load(a) == LastStore(ops, a, old(Load(a))))
              && mepc == (var m := LastMepc(ops, old(mepc));
                          if mcause >= 0x8000_0000 then m
                          else (m + if compressed && mtinst % 4 != 3 then 2 else 4) % M32)
    {
      ghost var ops, base := handlers[table.HandlerOf(mcause)], x[2] - 4 * n;
      TakeTrap(table, handlers);
      hide Slot, Outside, Behaved;
      forall a: nat | a < M32 && (a - base) % M32 >= 4 * n
        ensures Load(a) == LastStore(ops, a, old(Load(a)))
      {
        BehindFrame(base, a);
      }
    }
  }
}
