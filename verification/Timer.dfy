/** 64-bit counters behind 32-bit accesses: MTIME, MTIMECMP, the cycle and instret counters. */
module Timer {
  import opened Words

  /** The two words of a counter that has counted `t` ticks. */
  function High(t: nat): nat { t / M32 % M32 }

  function Low(t: nat): nat { t % M32 }

  function Join(high: nat, low: nat): nat { M32 * high + low }

  lemma JoinWords(t: nat)
    ensures Join(High(t), Low(t)) == t % M64
  {
    assert t == M32 * (t / M32) + t % M32;
    assert t / M32 == M32 * (t / M32 / M32) + High(t);
  }

  // ---- reading a running counter

  /** A counter that never runs backwards: `ticks(i)` have been counted at the `i`-th access to it. */
  ghost predicate Running(ticks: nat -> nat) {
    forall i, j :: 0 <= i <= j ==> ticks(i) <= ticks(j)
  }

  /** No three accesses in a row take almost 2^64 ticks. */
  ghost predicate ShortPasses(ticks: nat -> nat) {
    forall i, j :: 0 <= i <= j <= i + 2 ==> ticks(j) - ticks(i) <= M64 - M32
  }

  class Counter {
    const ticks: nat -> nat
    var accesses: nat

    constructor (ticks: nat -> nat)
      ensures this.ticks == ticks && accesses == 0
    {
      this.ticks := ticks;
      accesses := 0;
    }

    method ReadHigh() returns (word: nat)
      modifies this`accesses
      ensures word == High(ticks(old(accesses))) && accesses == old(accesses) + 1
    {
      word := High(ticks(accesses));
      accesses := accesses + 1;
    }

    method ReadLow() returns (word: nat)
      modifies this`accesses
      ensures word == Low(ticks(old(accesses))) && accesses == old(accesses) + 1
    {
      word := Low(ticks(accesses));
      accesses := accesses + 1;
    }

    /** Pass `k` of a reading that began at access `base` sees the same high word twice. */
    ghost predicate Quiet(base: nat, k: nat) {
      High(ticks(base + 3 * k)) == High(ticks(base + 3 * k + 2))
    }

    /** One pass of the reading loop; `settled` tells whether the high word stood still. */
    method Pass() returns (settled: bool, value: nat)
      requires Running(ticks) && ShortPasses(ticks)
      modifies this`accesses
      ensures accesses == old(accesses) + 3 && (settled <==> Quiet(old(accesses), 0))
      ensures settled ==> value == ticks(old(accesses) + 1) % M64
    {
      hide High, Low, Join;
      ghost var i := accesses;
      var tmp1 := ReadHigh();
      var tmp2 := ReadLow();
      var tmp3 := ReadHigh();
      settled := tmp1 == tmp3;
      value := Join(tmp3, tmp2);
      if settled {
        StableHigh(ticks(i), ticks(i + 1), ticks(i + 2));
      }
    }

    /** The counter as it was when its low word was read, in the first quiet pass. The count may be any
        and may wrap around 2^64; a pass must only not last almost that long. */
    method Get(ghost quiet: nat) returns (value: nat, ghost pass: nat)
      requires Running(ticks) && Quiet(accesses, quiet)
      requires ShortPasses(ticks)
      modifies this`accesses
      ensures pass <= quiet && Quiet(old(accesses), pass) && accesses == old(accesses) + 3 * pass + 3
      ensures forall k :: 0 <= k < pass ==> !Quiet(old(accesses), k)
      ensures value == ticks(old(accesses) + 3 * pass + 1) % M64
    {
      hide Running, ShortPasses, Quiet, High;
      ghost var base := accesses;
      pass := 0;
      while true
        invariant pass <= quiet && accesses == base + 3 * pass
        invariant forall k :: 0 <= k < pass ==> !Quiet(base, k)
        decreases quiet - pass
      {
        QuietFrom(base, pass);
        var settled;
        settled, value := Pass();
        if settled {
          return;
        }
        pass := pass + 1;
      }
    }

    /** The seconds counted when the counter was read. */
    method GetSeconds(clk: nat, ghost quiet: nat) returns (now: nat, ghost pass: nat)
      requires clk > 0 && Running(ticks) && Quiet(accesses, quiet) && ShortPasses(ticks)
      modifies this`accesses
      ensures pass <= quiet && now == ticks(old(accesses) + 3 * pass + 1) % M64 / clk
    {
      hide Running, ShortPasses, Quiet;
      var value;
      value, pass := Get(quiet);
      now := value / clk;
    }

    lemma QuietFrom(base: nat, pass: nat)
      ensures Quiet(base + 3 * pass, 0) == Quiet(base, pass)
    {}
  }

  /** If the high word is the same before and after, it was the same in between. */
  lemma StableHigh(t1: nat, t2: nat, t3: nat)
    requires t1 <= t2 <= t3 <= t1 + (M64 - M32) && High(t1) == High(t3)
    ensures Join(High(t3), Low(t2)) == t2 % M64
  {
    var h1, h2, h3 := t1 / M32, t2 / M32, t3 / M32;
    assert h1 <= h2 <= h3 < h1 + M32;
    SameResidue(h1, h3);
    JoinWords(t2);
  }

  lemma SameResidue(a: nat, b: nat)
    requires a <= b < a + M32 && a % M32 == b % M32
    ensures a == b
  {}

  /** If six reads take fewer than 2^32 ticks, one of the first two passes is quiet. */
  lemma TwoPassesSuffice(c: Counter, base: nat)
    requires Running(c.ticks) && c.ticks(base + 5) - c.ticks(base) < M32
    ensures c.Quiet(base, 0) || c.Quiet(base, 1)
  {
    var t := c.ticks;
    var h0, h2, h3, h5 := t(base) / M32, t(base + 2) / M32, t(base + 3) / M32, t(base + 5) / M32;
    assert h0 <= h2 <= h3 <= h5 <= h0 + 1;
    assert h0 == h2 || h3 == h5;
  }

  // ---- writing

  /** The timer registers of the CLINT; MTIME counts on between any two accesses. */
  class Clint {
    var mtime: nat
    var mtimecmp: seq<nat>

    ghost predicate Valid()
      reads this
    {
      mtime < M64 && forall h :: 0 <= h < |mtimecmp| ==> mtimecmp[h] < M64
    }

    constructor (harts: nat)
      ensures Valid() && |mtimecmp| == harts
    {
      mtime, mtimecmp := 0, seq(harts, _ => 0);
    }

    method Tick(n: nat)
      modifies this`mtime
      ensures mtime == (old(mtime) + n) % M64
    {
      mtime := (mtime + n) % M64;
    }

    /** Set the time, with `d1` and `d2` ticks between the three stores. The time is exact at the last
        store iff no carry gets past the second: always when the stores take fewer than 2^32 ticks. */
    method TimeSet(time: nat, d1: nat, d2: nat)
      requires Valid() && time < M64
      modifies this`mtime
      ensures Valid() && Low(mtime) == Low(time)
      ensures mtime == time <==> (d1 % M32 + d2) / M32 % M32 == 0
      ensures d1 + d2 < M32 ==> mtime == time
    {
      hide High, Low, Join;
      WordBounds(mtime);
      WordBounds(time);
      mtime := Join(High(mtime), 0);
      LowAfterTicks(High(old(mtime)), d1);
      Tick(d1);
      WordBounds(mtime);
      mtime := Join(High(time), Low(mtime));
      CarryOf(High(time), d1 % M32, d2);
      Tick(d2);
      WordBounds(mtime);
      JoinBounds(High(mtime), Low(time));
      mtime := Join(High(mtime), Low(time));
      JoinWords(time);
    }

    /** Store one word of a comparator; `now` are the values it has held, the present one last. */
    method StoreCmp(hart: nat, high: bool, word: nat, ghost seen: seq<nat>) returns (ghost now: seq<nat>)
      requires hart < |mtimecmp|
      modifies this`mtimecmp
      ensures var cmp := old(mtimecmp[hart]);
              mtimecmp == old(mtimecmp)[hart := if high then Join(word, Low(cmp)) else Join(High(cmp), word)]
      ensures now == seen + [mtimecmp[hart]]
    {
      var cmp := mtimecmp[hart];
      mtimecmp := mtimecmp[hart := if high then Join(word, Low(cmp)) else Join(High(cmp), word)];
      now := seen + [mtimecmp[hart]];
    }

    /** Program the comparator of `hart` by three stores of a word. No value it holds on the way is below both the
        old and the new one. */
    method MtimecmpSet(hart: nat, timecmp: nat) returns (ghost seen: seq<nat>)
      requires Valid() && hart < |mtimecmp| && timecmp < M64
      modifies this`mtimecmp
      ensures Valid() && mtimecmp == old(mtimecmp)[hart := timecmp]
      ensures |seen| == 4 && seen[0] == old(mtimecmp[hart]) && seen[3] == timecmp
      ensures forall i :: 0 <= i < 4 ==> seen[i] >= old(mtimecmp[hart]) || seen[i] >= timecmp
      ensures forall i :: 0 <= i < 3 ==> High(seen[i]) == High(seen[i + 1]) || Low(seen[i]) == Low(seen[i + 1])
    {
      hide High, Low, Join;
      var before := mtimecmp[hart];
      JoinWords(before);
      JoinWords(timecmp);
      WordBounds(before);
      WordBounds(timecmp);
      JoinBounds(High(before), M32 - 1);
      JoinBounds(High(timecmp), M32 - 1);
      JoinOrder(High(before), Low(before));
      JoinOrder(High(timecmp), Low(timecmp));
      seen := StoreCmp(hart, false, M32 - 1, [before]);
      seen := StoreCmp(hart, true, High(timecmp), seen);
      seen := StoreCmp(hart, false, Low(timecmp), seen);
    }

    method UnixTimeSet(clk: nat, unixtime: nat, d1: nat, d2: nat)
      requires Valid() && clk < M32 && unixtime < M64
      modifies this`mtime
      ensures Valid()
      ensures d1 + d2 < M32 ==> mtime == clk * unixtime % M64
    {
      TimeSet(clk * unixtime % M64, d1, d2);
    }

    /** Set the Unix time, then read it back by the loop of `Counter.Get` while the timer counts on:
        `elapsed(i)` ticks have passed at the `i`-th access. It reads as the one set until a full second
        has passed at the access that counts, and not longer. */
    method UnixTimeAfter(clk: nat, unixtime: nat, d1: nat, d2: nat, elapsed: nat -> nat, ghost quiet: nat)
      returns (now: nat, ghost pass: nat)
      requires Valid() && 0 < clk < M32 && d1 + d2 < M32 && Running(elapsed) && ShortPasses(elapsed)
      requires High(clk * unixtime + elapsed(3 * quiet)) == High(clk * unixtime + elapsed(3 * quiet + 2))
      requires clk * unixtime + elapsed(3 * quiet + 1) < M64
      modifies this`mtime
      ensures Valid() && mtime == clk * unixtime
      ensures pass <= quiet && (now == unixtime <==> elapsed(3 * pass + 1) < clk)
    {
      hide High, Running, ShortPasses;
      ghost var start := clk * unixtime;
      FactorBound(clk, unixtime);
      UnixTimeSet(clk, unixtime, d1, d2);
      SinceRuns(start, elapsed);
      var counter := new Counter(Since(mtime, elapsed));
      now, pass := counter.GetSeconds(clk, quiet);
      SecondsSince(clk, unixtime, elapsed, pass, quiet);
    }
  }

  /** A carry between the last two stores makes the time come out wrong: set to 0, it is not 0. */
  method TimeSetMisses() returns (clint: Clint)
    ensures clint.mtime != 0
  {
    clint := new Clint(1);
    clint.TimeSet(0, M32 - 1, 1);
  }

  /** A counter that has counted `start` ticks when the first `elapsed` tick comes. */
  function Since(start: nat, elapsed: nat -> nat): nat -> nat {
    i => start + elapsed(i)
  }

  lemma SinceRuns(start: nat, elapsed: nat -> nat)
    requires Running(elapsed) && ShortPasses(elapsed)
    ensures Running(Since(start, elapsed)) && ShortPasses(Since(start, elapsed))
  {}

  lemma SecondsSince(clk: nat, unixtime: nat, elapsed: nat -> nat, pass: nat, quiet: nat)
    requires clk > 0 && Running(elapsed) && pass <= quiet && clk * unixtime + elapsed(3 * quiet + 1) < M64
    ensures Since(clk * unixtime, elapsed)(3 * pass + 1) % M64 / clk == unixtime <==> elapsed(3 * pass + 1) < clk
  {
    var r := elapsed(3 * pass + 1);
    assert r <= elapsed(3 * quiet + 1);
    QuotientExact(clk * unixtime + r, clk, unixtime, r);
  }

  lemma WordBounds(t: nat)
    ensures High(t) < M32 && Low(t) < M32
  {}

  lemma JoinBounds(h: nat, l: nat)
    requires h < M32 && l < M32
    ensures Join(h, l) < M64 && High(Join(h, l)) == h && Low(Join(h, l)) == l
  {}

  lemma JoinOrder(h: nat, l: nat)
    requires l < M32
    ensures Join(h, l) <= Join(h, M32 - 1)
  {}

  lemma LowAfterTicks(h: nat, d: nat)
    requires h < M32
    ensures Low((Join(h, 0) + d) % M64) == d % M32
  {
    var t := M32 * h + d;
    DivModUnique(t % M64, M32, h + d / M32 - M32 * (t / M64), d % M32);
  }

  lemma CarryOf(h: nat, l: nat, d: nat)
    requires h < M32 && l < M32
    ensures High((Join(h, l) + d) % M64) == h <==> (l + d) / M32 % M32 == 0
  {
    HighOfWrapped(Join(h, l) + d);
    HighOfSum(h, l + d);
    hide High;
    AddResidue(h, (l + d) / M32);
  }

  lemma HighOfWrapped(t: nat)
    ensures High(t % M64) == High(t)
  {
    var k, y := t / M64, t % M64;
    assert t / M32 == M32 * k + y / M32;
  }

  lemma HighOfSum(h: nat, x: nat)
    ensures High(M32 * h + x) == (h + x / M32) % M32
  {}

  lemma AddResidue(h: nat, c: nat)
    requires h < M32
    ensures (h + c) % M32 == h <==> c % M32 == 0
  {}

  lemma FactorBound(a: nat, b: nat)
    requires a > 0
    ensures b <= a * b
  {}

  lemma QuotientExact(x: nat, y: nat, q: nat, r: nat)
    requires y > 0 && x == y * q + r
    ensures x / y == q <==> r < y
  {
    assert r == y * (r / y) + r % y;
    DivModUnique(x, y, q + r / y, r % y);
  }

  /** An interrupt is pending while MTIME has reached the comparator (section 3.2.1 of the RISC-V
      Privileged Architecture 1.12). */
  predicate Pending(mtime: nat, mtimecmp: nat) {
    mtime >= mtimecmp
  }

  /** While MTIME is below the old and the new comparator value, reprogramming raises no interrupt. */
  lemma NoSpuriousInterrupt(seen: seq<nat>, before: nat, after: nat, mtime: nat, i: nat)
    requires i < |seen| && forall k :: 0 <= k < |seen| ==> seen[k] >= before || seen[k] >= after
    ensures mtime < before && mtime < after ==> !Pending(mtime, seen[i])
  {}
}
