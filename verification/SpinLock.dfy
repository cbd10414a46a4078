/** What a lock is: at most one core owns it. */
module AbstractLock {

  datatype Owner = Free | Owned(core: nat)

  datatype Event = Acquire(core: nat) | Release(core: nat) | Stutter

  ghost predicate Step(a: Owner, b: Owner, e: Event) {
    match e
    case Acquire(c) => a == Free && b == Owned(c)
    case Release(c) => a == Owned(c) && b == Free
    case Stutter => a == b
  }
}

/** The spinlock on load-reserved and store-conditional, for any number of cores. */
module LrScLock {
  import opened AbstractLock

  const LOCKED := 0xFFFF_FFFF

  /** Where a core is: idle; before the LR or the SC of the compare-and-swap in the lock loop; holding
      the lock; before the LR or the SC of the unlock loop. */
  datatype Pc = Idle | LockLr | LockSc | Critical | UnlockLr | UnlockSc

  /** The lock word, the program counters and the cores with a valid reservation on the word. */
  datatype State = State(word: nat, pcs: seq<Pc>, reserved: set<nat>)

  datatype Action = CallLock | LockLoad | LockStore | CallUnlock | UnlockLoad | UnlockStore | Check | LoseReservation

  predicate Holds(pc: Pc) {
    pc.Critical? || pc.UnlockLr? || pc.UnlockSc?
  }

  ghost predicate Init(s: State) {
    s.word == 0 && s.reserved == {} && forall c :: 0 <= c < |s.pcs| ==> s.pcs[c] == Idle
  }

  function Goto(s: State, c: nat, pc: Pc): State
    requires c < |s.pcs|
  {
    s.(pcs := s.pcs[c := pc])
  }

  /** A store-conditional that succeeds clears every reservation on the word; one that fails clears the
      core's own. It may fail even with a valid reservation, and never succeeds without one. */
  function StoreConditional(s: State, c: nat, value: nat, ok: bool): State {
    if ok then s.(word := value, reserved := {}) else s.(reserved := s.reserved - {c})
  }

  function LoadReserved(s: State, c: nat): State {
    s.(reserved := s.reserved + {c})
  }

  /** One step of core `c`; `ok` is the outcome of a store-conditional. */
  ghost predicate Step(s: State, t: State, c: nat, a: Action, ok: bool) {
    && c < |s.pcs|
    && match a
       case CallLock => s.pcs[c] == Idle && t == Goto(s, c, LockLr)
       case LockLoad => s.pcs[c] == LockLr && t == Goto(LoadReserved(s, c), c, if s.word == 0 then LockSc else LockLr)
       case LockStore => s.pcs[c] == LockSc && (ok ==> c in s.reserved)
                         && t == Goto(StoreConditional(s, c, LOCKED, ok), c, if ok then Critical else LockLr)
       case CallUnlock => s.pcs[c] == Critical && t == Goto(s, c, UnlockLr)
       case UnlockLoad => s.pcs[c] == UnlockLr && t == Goto(LoadReserved(s, c), c, UnlockSc)
       case UnlockStore => s.pcs[c] == UnlockSc && (ok ==> c in s.reserved)
                           && t == Goto(StoreConditional(s, c, 0, ok), c, if ok then Idle else UnlockLr)
       case Check => (s.pcs[c] == Idle || s.pcs[c] == Critical) && t == LoadReserved(s, c)
       case LoseReservation => t == s.(reserved := s.reserved - {c})
  }

  ghost predicate Next(s: State, t: State) {
    exists c: nat, a: Action, ok: bool :: Step(s, t, c, a, ok)
  }

  ghost predicate Behavior(trace: seq<State>) {
    |trace| > 0 && Init(trace[0]) && forall i :: 0 <= i < |trace| - 1 ==> Next(trace[i], trace[i + 1])
  }

  ghost predicate MutualExclusion(s: State) {
    forall c, d :: 0 <= c < d < |s.pcs| ==> !(Holds(s.pcs[c]) && Holds(s.pcs[d]))
  }

  ghost predicate SomeHolder(s: State) {
    exists c :: 0 <= c < |s.pcs| && Holds(s.pcs[c])
  }

  ghost predicate Inv(s: State) {
    && MutualExclusion(s)
    && (s.word != 0 <==> SomeHolder(s))
    && (forall c :: 0 <= c < |s.pcs| && s.pcs[c] == LockSc && c in s.reserved ==> s.word == 0)
  }

  ghost function OwnerOf(s: State): Owner {
    if c: nat :| c < |s.pcs| && Holds(s.pcs[c]) then Owned(c) else Free
  }

  lemma OwnerUnique(s: State, c: nat)
    requires Inv(s)
    ensures c < |s.pcs| && Holds(s.pcs[c]) ==> OwnerOf(s) == Owned(c)
    ensures s.word == 0 ==> OwnerOf(s) == Free
  {}

  function EventOf(c: nat, a: Action, ok: bool): Event {
    if a == LockStore && ok then Acquire(c) else if a == UnlockStore && ok then Release(c) else Stutter
  }

  /** A step that changes neither the word nor who holds the lock. */
  lemma QuietStep(s: State, t: State, c: nat)
    requires Inv(s) && c < |s.pcs| == |t.pcs| && t.word == s.word && Holds(t.pcs[c]) == Holds(s.pcs[c])
    requires forall d :: 0 <= d < |s.pcs| && d != c ==> t.pcs[d] == s.pcs[d]
    requires t.reserved <= s.reserved + {c} && (t.pcs[c] == LockSc && c in t.reserved ==> t.word == 0)
    ensures Inv(t)
  {
    if SomeHolder(s) {
      var h :| 0 <= h < |s.pcs| && Holds(s.pcs[h]);
      assert Holds(t.pcs[h]);
    }
    if SomeHolder(t) {
      var h :| 0 <= h < |t.pcs| && Holds(t.pcs[h]);
      assert Holds(s.pcs[h]);
    }
  }

  lemma AcquireStep(s: State, t: State, c: nat)
    requires Inv(s) && Step(s, t, c, LockStore, true)
    ensures Inv(t)
  {
    assert s.word == 0;
    assert Holds(t.pcs[c]);
    assert forall d :: 0 <= d < |t.pcs| && d != c ==> t.pcs[d] == s.pcs[d] && !Holds(s.pcs[d]);
  }

  lemma ReleaseStep(s: State, t: State, c: nat)
    requires Inv(s) && Step(s, t, c, UnlockStore, true)
    ensures Inv(t)
  {
    assert Holds(s.pcs[c]);
    assert forall d :: 0 <= d < |t.pcs| && d != c ==> t.pcs[d] == s.pcs[d] && !Holds(s.pcs[d]);
  }

  lemma StepKeepsInv(s: State, t: State, c: nat, a: Action, ok: bool)
    requires Inv(s) && Step(s, t, c, a, ok)
    ensures Inv(t)
  {
    if a == LockStore && ok {
      AcquireStep(s, t, c);
    } else if a == UnlockStore && ok {
      ReleaseStep(s, t, c);
    } else {
      QuietFacts(s, t, c, a, ok);
      QuietStep(s, t, c);
    }
  }

  lemma QuietFacts(s: State, t: State, c: nat, a: Action, ok: bool)
    requires Inv(s) && Step(s, t, c, a, ok) && !(ok && (a == LockStore || a == UnlockStore))
    ensures c < |s.pcs| == |t.pcs| && t.word == s.word && Holds(t.pcs[c]) == Holds(s.pcs[c])
    ensures forall d :: 0 <= d < |s.pcs| && d != c ==> t.pcs[d] == s.pcs[d]
    ensures t.reserved <= s.reserved + {c} && (t.pcs[c] == LockSc && c in t.reserved ==> t.word == 0)
  {
    hide SomeHolder, MutualExclusion;
  }

  /** Every step keeps the invariant and is a step of the abstract lock: taken only when free, given back
      only by its owner. */
  lemma StepRefines(s: State, t: State, c: nat, a: Action, ok: bool)
    requires Inv(s) && Step(s, t, c, a, ok)
    ensures Inv(t)
    ensures AbstractLock.Step(OwnerOf(s), OwnerOf(t), EventOf(c, a, ok))
  {
    StepKeepsInv(s, t, c, a, ok);
    hide Inv;
    OwnerUnique(s, c);
    OwnerUnique(t, c);
    if OwnerOf(s).Owned? {
      var h := OwnerOf(s).core;
      OwnerUnique(t, h);
    } else if OwnerOf(t).Owned? {
      OwnerUnique(s, OwnerOf(t).core);
    }
  }

  lemma {:induction false} InvAlways(trace: seq<State>, i: nat)
    requires Behavior(trace) && i < |trace|
    ensures Inv(trace[i])
  {
    if i > 0 {
      InvAlways(trace, i - 1);
      assert Next(trace[i - 1], trace[i - 1 + 1]);
      var c: nat, a: Action, ok: bool :| Step(trace[i - 1], trace[i], c, a, ok);
      StepRefines(trace[i - 1], trace[i], c, a, ok);
    }
  }

  /** In every state of every run at most one core is inside, and the lock word is nonzero exactly when
      one is; so `spin_check`, which reads it, tells whether some core holds the lock. */
  lemma LockIsSafe(trace: seq<State>, i: nat)
    requires Behavior(trace) && i < |trace|
    ensures MutualExclusion(trace[i])
    ensures trace[i].word != 0 <==> SomeHolder(trace[i])
  {
    InvAlways(trace, i);
  }

  /** A holder that goes to unlock gives the lock back in two undisturbed steps. */
  lemma UnlockIsLive(s: State, c: nat) returns (t: State, u: State)
    requires Inv(s) && c < |s.pcs| && s.pcs[c] == UnlockLr
    ensures Step(s, t, c, UnlockLoad, true) && Step(t, u, c, UnlockStore, true) && OwnerOf(u) == Free
  {
    t := Goto(LoadReserved(s, c), c, UnlockSc);
    u := Goto(StoreConditional(t, c, 0, true), c, Idle);
    StepRefines(s, t, c, UnlockLoad, true);
    StepRefines(t, u, c, UnlockStore, true);
  }

  /** A core that waits for a free lock gets it in two undisturbed steps. */
  lemma LockIsLive(s: State, c: nat) returns (t: State, u: State)
    requires Inv(s) && c < |s.pcs| && s.pcs[c] == LockLr && !SomeHolder(s)
    ensures Step(s, t, c, LockLoad, true) && Step(t, u, c, LockStore, true) && OwnerOf(u) == Owned(c)
  {
    t := Goto(LoadReserved(s, c), c, LockSc);
    u := Goto(StoreConditional(t, c, LOCKED, true), c, Critical);
    StepRefines(s, t, c, LockLoad, true);
    StepRefines(t, u, c, LockStore, true);
    OwnerUnique(u, c);
  }
}

/** The spinlock on atomic swap, for any number of cores. */
module SwapLock {
  import opened AbstractLock

  const LOCKED := 0xFFFF_FFFF

  datatype Pc = Idle | Spin | Critical | Unlock

  datatype State = State(word: nat, pcs: seq<Pc>)

  datatype Action = CallLock | LockSwap | CallUnlock | UnlockSwap

  predicate Holds(pc: Pc) {
    pc.Critical? || pc.Unlock?
  }

  ghost predicate Init(s: State) {
    s.word == 0 && forall c :: 0 <= c < |s.pcs| ==> s.pcs[c] == Idle
  }

  /** One step of core `c`. A swap in the lock loop always writes, also when the lock was taken. */
  ghost predicate Step(s: State, t: State, c: nat, a: Action) {
    && c < |s.pcs|
    && match a
       case CallLock => s.pcs[c] == Idle && t == s.(pcs := s.pcs[c := Spin])
       case LockSwap => s.pcs[c] == Spin && t == State(LOCKED, s.pcs[c := if s.word == 0 then Critical else Spin])
       case CallUnlock => s.pcs[c] == Critical && t == s.(pcs := s.pcs[c := Unlock])
       case UnlockSwap => s.pcs[c] == Unlock && t == State(0, s.pcs[c := Idle])
  }

  ghost predicate Behavior(trace: seq<State>) {
    && |trace| > 0 && Init(trace[0])
    && forall i :: 0 <= i < |trace| - 1 ==> Next(trace[i], trace[i + 1])
  }

  ghost predicate Next(s: State, t: State) {
    exists c: nat, a: Action :: Step(s, t, c, a)
  }

  ghost predicate MutualExclusion(s: State) {
    forall c, d :: 0 <= c < d < |s.pcs| ==> !(Holds(s.pcs[c]) && Holds(s.pcs[d]))
  }

  ghost predicate SomeHolder(s: State) {
    exists c :: 0 <= c < |s.pcs| && Holds(s.pcs[c])
  }

  ghost predicate Inv(s: State) {
    MutualExclusion(s) && (s.word != 0 <==> SomeHolder(s))
  }

  ghost function OwnerOf(s: State): Owner {
    if c: nat :| c < |s.pcs| && Holds(s.pcs[c]) then Owned(c) else Free
  }

  lemma OwnerUnique(s: State, c: nat)
    requires Inv(s)
    ensures c < |s.pcs| && Holds(s.pcs[c]) ==> OwnerOf(s) == Owned(c)
    ensures s.word == 0 ==> OwnerOf(s) == Free
  {}

  function EventOf(s: State, c: nat, a: Action): Event {
    if a == LockSwap && s.word == 0 then Acquire(c) else if a == UnlockSwap then Release(c) else Stutter
  }

  lemma StepRefines(s: State, t: State, c: nat, a: Action)
    requires Inv(s) && Step(s, t, c, a)
    ensures Inv(t)
    ensures AbstractLock.Step(OwnerOf(s), OwnerOf(t), EventOf(s, c, a))
  {
    OwnerUnique(s, c);
    assert forall d :: 0 <= d < |t.pcs| && d != c ==> t.pcs[d] == s.pcs[d];
    assert t.word != 0 <==> SomeHolder(t) by {
      if Holds(t.pcs[c]) {
      } else if SomeHolder(s) {
        var h :| 0 <= h < |s.pcs| && Holds(s.pcs[h]);
        assert Holds(t.pcs[h]) || h == c;
      }
    }
    OwnerUnique(t, c);
    if OwnerOf(s).Owned? {
      OwnerUnique(t, OwnerOf(s).core);
    }
  }

  lemma {:induction false} LockIsSafe(trace: seq<State>, i: nat)
    requires Behavior(trace) && i < |trace|
    ensures MutualExclusion(trace[i])
    ensures trace[i].word != 0 <==> SomeHolder(trace[i])
  {
    if i > 0 {
      LockIsSafe(trace, i - 1);
      assert Next(trace[i - 1], trace[i - 1 + 1]);
      var c: nat, a: Action :| Step(trace[i - 1], trace[i], c, a);
      StepRefines(trace[i - 1], trace[i], c, a);
    }
  }
}
