/** Prime test and prime counting in 32-bit arithmetic. */
module Primes {
  import opened Words

  /** The largest prime below 2^32; the loop of `IsPrime` runs past it. */
  const MISJUDGED := 4294967291

  /** The least number whose square, modulo 2^32, is the greatest square below 2^32. */
  const TOP_ROOT := 479772853
  const TOP_SQUARE := 4294967289

  predicate Divides(d: nat, n: nat)
    requires d > 0
  {
    n % d == 0
  }

  ghost predicate NoDivisorBelow(n: nat, b: nat) {
    forall d: nat :: 2 <= d < b ==> !Divides(d, n)
  }

  ghost predicate Prime(n: nat) {
    2 <= n && NoDivisorBelow(n, n)
  }

  function Square32(i: nat): nat {
    i * i % M32
  }

  lemma MulLe(a: nat, b: nat, m: nat)
    requires a <= b
    ensures a * m <= b * m
  {}

  lemma ModSmall(x: nat)
    requires x < M32
    ensures x % M32 == x
  {}

  lemma SquareSmall(i: nat)
    requires i <= 65535
    ensures Square32(i) == i * i
  {
    MulLe(i, 65535, i);
    MulLe(i, 65535, 65535);
    ModSmall(i * i);
  }

  lemma Squares()
    ensures Square32(65535) == 65535 * 65535 == 4294836225
    ensures Square32(TOP_ROOT) == TOP_SQUARE
  {}

  /** Primes are the numbers from 2 on that are no product of two such numbers. */
  lemma PrimeMeans(n: nat)
    ensures Prime(n) <==> n >= 2 && forall a: nat, b: nat :: a >= 2 && b >= 2 ==> Product(a, b) != n
  {
    if n >= 2 && !Prime(n) {
      var d: nat :| 2 <= d < n && Divides(d, n);
      assert n == d * (n / d);
      CofactorBounds(n, d, n / d, n);
      assert Product(d, n / d) == n;
    }
    if a: nat, b: nat :| Product(a, b) == n && a >= 2 && b >= 2 {
      CofactorDivides(n, b, a);
      SquareGrows(a);
      MulLe(2, b, a);
    }
  }

  function Product(a: nat, b: nat): nat {
    a * b
  }

  /** A number without divisors below `b` is prime if `b * b` exceeds it. */
  lemma NoSmallDivisor(n: nat, b: nat)
    requires 2 <= n < b * b && NoDivisorBelow(n, b)
    ensures Prime(n)
  {
    forall d: nat | 2 <= d < n
      ensures !Divides(d, n)
    {
      if Divides(d, n) {
        var e := n / d;
        assert n == d * e;
        CofactorBounds(n, d, e, b);
        CofactorDivides(n, d, e);
      }
    }
  }

  lemma CofactorBounds(n: nat, d: nat, e: nat, b: nat)
    requires n == d * e < b * b && 2 <= d < n
    ensures 2 <= e && (d < b || e < b)
  {
  }

  lemma CofactorDivides(n: nat, d: nat, e: nat)
    requires n == d * e && 2 <= e
    ensures Divides(e, n)
  {
    var k := d - n / e;
    assert e * k == e * d - e * (n / e) == n % e;
    assert k == 0;
  }

  /** Modulo 2^32 no square lies above 2^32 - 7. */
  lemma NoSquareAbove(i: nat)
    ensures Square32(i) <= TOP_SQUARE
  {
    SquareClass(i, i / 4, i % 4);
    SquareResidues(i * i);
  }

  lemma SquareClass(i: nat, j: nat, r: nat)
    requires i == 4 * j + r && r < 4
    ensures i * i % 16 == 0 || i * i % 16 == 4 || i * i % 8 == 1
  {
    SquareParts(i, j, r);
    var k := j * j;
    if r == 0 {
      DivModUnique(i * i, 16, k, 0);
    } else if r == 1 {
      DivModUnique(i * i, 8, 2 * k + j, 1);
    } else if r == 2 {
      DivModUnique(i * i, 16, k + j, 4);
    } else {
      DivModUnique(i * i, 8, 2 * k + 3 * j + 1, 1);
    }
  }

  lemma SquareParts(i: nat, j: nat, r: nat)
    requires i == 4 * j + r && r < 4
    ensures var k := j * j;
            i * i == if r == 0 then 16 * k else if r == 1 then 16 * k + 8 * j + 1
                     else if r == 2 then 16 * k + 16 * j + 4 else 16 * k + 24 * j + 9
  {
    SquareOfSum(4 * j, r);
  }

  lemma SquareOfSum(a: nat, b: nat)
    ensures (a + b) * (a + b) == a * a + 2 * (a * b) + b * b
  {}

  lemma SquareResidues(x: nat)
    requires x % 16 == 0 || x % 16 == 4 || x % 8 == 1
    ensures x % M32 <= TOP_SQUARE
  {
    var m, s := x / M32, x % M32;
    assert x == 16 * (0x1000_0000 * m) + s;
  }

  /** Between 2^32 - 7 and 2^32 the only number without a small divisor is 2^32 - 5. */
  lemma TopNumbers(n: nat)
    requires TOP_SQUARE <= n < M32 && NoDivisorBelow(n, 65536)
    ensures n == MISJUDGED
  {
    assert !Divides(2, n) && !Divides(3, n) && !Divides(9241, n);
  }

  lemma DividesSelf(n: nat)
    requires n > 0
    ensures Divides(n, n)
  {}

  lemma SquareGrows(n: nat)
    requires 2 <= n
    ensures n < n * n
  {
    assert n * n == n + n * (n - 1);
  }

  /** The loop reaches `n` itself only for 2^32 - 5. */
  lemma LoopRunsOut(n: nat)
    requires 2 <= n < M32 && (n > 65535 ==> n >= 4294836225) && (n > TOP_ROOT ==> n >= TOP_SQUARE)
    ensures NoDivisorBelow(n, n) && Square32(n) <= n ==> n == MISJUDGED
  {
    if n <= 65535 {
      SquareSmall(n);
      SquareGrows(n);
    } else if NoDivisorBelow(n, n) {
      TopNumbers(n);
    }
  }

  /** The prime test is right for every 32-bit number but the largest prime. */
  method IsPrime(n: nat) returns (r: bool)
    requires n < M32
    ensures r <==> Prime(n) && n != MISJUDGED
  {
    hide Square32, Divides;
    if n < 2 {
      return false;
    }
    DividesSelf(n);
    Squares();
    var i := 2;
    while Square32(i) <= n
      invariant 2 <= i <= n && NoDivisorBelow(n, i)
      invariant i > 65535 ==> n >= 4294836225
      invariant i > TOP_ROOT ==> n >= TOP_SQUARE
      decreases n - i
    {
      if Divides(i, n) {
        if i == n {
          LoopRunsOut(n);
        }
        return false;
      }
      i := i + 1;
    }
    NoSquareAbove(i);
    if i <= 65535 {
      SquareSmall(i);
      NoSmallDivisor(n, i);
    } else {
      NoSmallDivisor(n, 65536);
    }
    return true;
  }

  /** What `IsPrime` reports. */
  ghost predicate Reported(n: nat) {
    Prime(n) && n != MISJUDGED
  }

  ghost function Reports(beg: nat, end: nat): set<nat> {
    set i: nat | beg <= i < end && Reported(i)
  }

  /** The number of primes in a range is what the loop counts. */
  method CountPrimes(beg: nat, end: nat) returns (count: nat)
    requires beg < M32 && end < M32
    ensures count == |Reports(beg, end)| && count <= end
  {
    hide Prime;
    count := 0;
    var i := beg;
    while i < end
      invariant beg <= i && (i <= end || i == beg)
      invariant count == |Reports(beg, i)| <= i - beg
    {
      var prime := IsPrime(i);
      assert Reports(beg, i + 1) == if Reported(i) then Reports(beg, i) + {i} else Reports(beg, i);
      if prime {
        count := count + 1;
      }
      i := i + 1;
    }
    if end < beg {
      assert Reports(beg, end) == Reports(beg, beg);
    }
  }

  /** Counting is additive over a split range. */
  lemma CountSplits(beg: nat, mid: nat, end: nat)
    requires beg <= mid <= end
    ensures |Reports(beg, end)| == |Reports(beg, mid)| + |Reports(mid, end)|
  {
    hide Reported;
    assert Reports(beg, end) == Reports(beg, mid) + Reports(mid, end);
    assert Reports(beg, mid) !! Reports(mid, end);
  }
}

/** Two cores that share the counting through three shared variables. */
module DualCorePrimes {
  import opened Words
  import opened Primes

  /** Core 0: store the range and the flag, count the first half, wait, add. Core 1: wait, load the
      range, count, store the count, clear the flag. */
  datatype Pc0 = StoreBegin | StoreEnd | StoreRun | CountLow | WaitDone | AddHigh | Done0
  datatype Pc1 = WaitRun | LoadBegin | LoadEnd | StoreCount | ClearRun | Done1

  datatype State = State(arg0: int, arg1: int, run: int, pc0: Pc0, result: int, pc1: Pc1, begin: int, end: int)

  ghost function Count(beg: int, end: int): int {
    if 0 <= beg && 0 <= end then |Reports(beg, end)| else 0
  }

  ghost predicate Init(s: State) {
    s.run == 0 && s.pc0 == StoreBegin && s.pc1 == WaitRun
  }

  /** One access of core 0 to the shared variables, or its own counting. */
  ghost function Core0(s: State, max: nat): State {
    match s.pc0
    case StoreBegin => s.(arg0 := max / 2, pc0 := StoreEnd)
    case StoreEnd => s.(arg1 := max, pc0 := StoreRun)
    case StoreRun => s.(run := 1, pc0 := CountLow)
    case CountLow => s.(result := Count(0, max / 2), pc0 := WaitDone)
    case WaitDone => if s.run != 0 then s else s.(pc0 := AddHigh)
    case AddHigh => s.(result := (s.result + s.arg0) % M32, pc0 := Done0)
    case Done0 => s
  }

  ghost function Core1(s: State): State {
    match s.pc1
    case WaitRun => if s.run == 0 then s else s.(pc1 := LoadBegin)
    case LoadBegin => s.(begin := s.arg0, pc1 := LoadEnd)
    case LoadEnd => s.(end := s.arg1, pc1 := StoreCount)
    case StoreCount => s.(arg0 := Count(s.begin, s.end), pc1 := ClearRun)
    case ClearRun => s.(run := 0, pc1 := Done1)
    case Done1 => s
  }

  ghost predicate Run(trace: seq<State>, max: nat) {
    && |trace| > 0 && Init(trace[0])
    && forall i :: 0 <= i < |trace| - 1 ==> trace[i + 1] == Core0(trace[i], max) || trace[i + 1] == Core1(trace[i])
  }

  ghost predicate Inv(s: State, max: nat) {
    && (s.pc0 in {StoreEnd, StoreRun} ==> s.arg0 == max / 2)
    && (s.pc0 == StoreRun ==> s.arg1 == max)
    && (s.pc0 in {WaitDone, AddHigh} ==> s.result == Count(0, max / 2))
    && (s.pc0 in {StoreBegin, StoreEnd, StoreRun} ==> s.run == 0 && s.pc1 == WaitRun)
    && (s.pc0 in {CountLow, WaitDone} ==>
          && (s.run == 0 <==> s.pc1 == Done1)
          && (s.pc1 in {WaitRun, LoadBegin, LoadEnd, StoreCount} ==> s.arg0 == max / 2 && s.arg1 == max)
          && (s.pc1 in {LoadEnd, StoreCount} ==> s.begin == max / 2)
          && (s.pc1 == StoreCount ==> s.end == max)
          && (s.pc1 in {ClearRun, Done1} ==> s.arg0 == Count(max / 2, max)))
    && (s.pc0 == AddHigh ==> s.pc1 == Done1 && s.arg0 == Count(max / 2, max))
    && (s.pc0 == Done0 ==> s.pc1 == Done1 && s.result == (Count(0, max / 2) + Count(max / 2, max)) % M32)
  }

  lemma {:induction false} InvAlways(trace: seq<State>, max: nat, i: nat)
    requires Run(trace, max) && i < |trace|
    ensures Inv(trace[i], max)
  {
    hide Count;
    if i > 0 {
      InvAlways(trace, max, i - 1);
      assert trace[i - 1 + 1] == Core0(trace[i - 1], max) || trace[i - 1 + 1] == Core1(trace[i - 1]);
    }
  }

  lemma CountBound(beg: nat, end: nat)
    requires beg <= end
    ensures Count(beg, end) <= end - beg
    decreases end - beg
  {
    hide Reported;
    if beg < end {
      CountBound(beg, end - 1);
      assert Reports(beg, end) <= Reports(beg, end - 1) + {end - 1};
      SubsetSize(Reports(beg, end), Reports(beg, end - 1) + {end - 1});
    } else {
      assert Reports(beg, end) == {};
    }
  }

  lemma SubsetSize(a: set<nat>, b: set<nat>)
    requires a <= b
    ensures |a| <= |b|
  {
    assert b == a + (b - a);
  }

  /** In every interleaving the two cores together find what one core alone counts. */
  lemma DualEqualsSingle(trace: seq<State>, max: nat, i: nat)
    requires Run(trace, max) && max < M32 && i < |trace| && trace[i].pc0 == Done0
    ensures trace[i].result == |Reports(0, max)|
  {
    InvAlways(trace, max, i);
    CountSplits(0, max / 2, max);
    CountBound(0, max);
  }

  /** Distance to the end of both programs. */
  function Remaining(s: State): nat {
    (match s.pc0 case StoreBegin => 6 case StoreEnd => 5 case StoreRun => 4 case CountLow => 3
                 case WaitDone => 2 case AddHigh => 1 case Done0 => 0)
    + (match s.pc1 case WaitRun => 5 case LoadBegin => 4 case LoadEnd => 3 case StoreCount => 2
                   case ClearRun => 1 case Done1 => 0)
  }

  /** The handshake never deadlocks: until both cores are done, one of them can take a step towards the
      end, and no step leads away from it. */
  lemma HandshakeProgresses(s: State, max: nat)
    requires Inv(s, max)
    ensures Remaining(s) > 0 ==> Remaining(Core0(s, max)) < Remaining(s) || Remaining(Core1(s)) < Remaining(s)
    ensures Remaining(Core0(s, max)) <= Remaining(s) && Remaining(Core1(s)) <= Remaining(s)
    ensures Remaining(s) == 0 ==> s.pc0 == Done0 && s.pc1 == Done1
  {
    hide Count;
  }
}
