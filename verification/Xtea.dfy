/** The XTEA block cipher in software, on 32-bit words that wrap around. */
module Xtea {
  import opened Words

  const DELTA: Word := 0x9e37_79b9

  /** A 64-bit block. */
  datatype Block = Block(v0: Word, v1: Word)

  type Key = k: seq<Word> | |k| >= 4 witness [0, 0, 0, 0]

  function Add(a: Word, b: Word): Word {
    (a + b) % M32
  }

  function Subtract(a: Word, b: Word): Word {
    (a - b) % M32
  }

  function Xor(a: Word, b: Word): Word {
    ((a as bv32) ^ (b as bv32)) as int
  }

  /** Shifts by four to the left and five to the right, combined. */
  function Mix(v: Word): Word {
    Add(Xor(v * 16 % M32, v / 32), v)
  }

  /** What a cycle adds to the first word. */
  function LowTerm(k: Key, v: Word, sum: Word): Word {
    Xor(Mix(v), Add(sum, k[sum % 4]))
  }

  /** What a cycle adds to the second word. */
  function HighTerm(k: Key, v: Word, sum: Word): Word {
    Xor(Mix(v), Add(sum, k[sum / 2048 % 4]))
  }

  /** The running sum after `n` cycles of enciphering. */
  function Sum(n: nat): Word {
    DELTA * n % M32
  }

  /** The cycle of enciphering that starts at running sum `sum`. */
  function Cycle(k: Key, b: Block, sum: Word): Block {
    var v0 := Add(b.v0, LowTerm(k, b.v1, sum));
    Block(v0, Add(b.v1, HighTerm(k, v0, Add(sum, DELTA))))
  }

  /** `b` after `n` cycles of enciphering. */
  function Enciphered(k: Key, b: Block, n: nat): Block {
    if n == 0 then b else Cycle(k, Enciphered(k, b, n - 1), Sum(n - 1))
  }

  /** The cycle of deciphering that starts at running sum `sum`. */
  function UndoCycle(k: Key, b: Block, sum: Word): Block {
    var v1 := Subtract(b.v1, HighTerm(k, b.v0, sum));
    Block(Subtract(b.v0, LowTerm(k, v1, Subtract(sum, DELTA))), v1)
  }

  /** `b` after the cycles of deciphering that lead from running sum Sum(from) to Sum(to). */
  function Deciphered(k: Key, b: Block, from: nat, to: nat): Block
    requires to <= from
    decreases from - to
  {
    if from == to then b else UndoCycle(k, Deciphered(k, b, from, to + 1), Sum(to + 1))
  }

  lemma AddSubtract(a: Word, x: Word)
    ensures Subtract(Add(a, x), x) == a && Add(Subtract(a, x), x) == a
  {
    assert Add(a, x) == a + x || Add(a, x) == a + x - M32;
    assert Subtract(a, x) == a - x || Subtract(a, x) == a - x + M32;
  }

  lemma SumStep(n: nat)
    ensures Sum(n + 1) == Add(Sum(n), DELTA) && Subtract(Sum(n + 1), DELTA) == Sum(n)
  {
    hide Subtract;
    WrapWrap(DELTA * n, DELTA);
    AddSubtract(Sum(n), DELTA);
  }

  lemma UndoneCycle(k: Key, b: Block, sum: Word)
    ensures UndoCycle(k, Cycle(k, b, sum), Add(sum, DELTA)) == b
    ensures Cycle(k, UndoCycle(k, b, Add(sum, DELTA)), sum) == b
  {
    hide LowTerm, HighTerm, Add, Subtract;
    var next := Add(sum, DELTA);
    AddSubtract(sum, DELTA);
    AddSubtract(b.v0, LowTerm(k, b.v1, sum));
    AddSubtract(b.v1, HighTerm(k, Add(b.v0, LowTerm(k, b.v1, sum)), next));
    AddSubtract(b.v1, HighTerm(k, b.v0, next));
    AddSubtract(b.v0, LowTerm(k, Subtract(b.v1, HighTerm(k, b.v0, next)), sum));
  }

  /** Deciphering goes back through every state of enciphering. */
  lemma {:induction false} DecipherRetraces(k: Key, b: Block, n: nat, i: nat)
    requires i <= n
    ensures Deciphered(k, Enciphered(k, b, n), n, i) == Enciphered(k, b, i)
    decreases n - i
  {
    hide Cycle, UndoCycle, Sum, Add, Subtract;
    if i < n {
      DecipherRetraces(k, b, n, i + 1);
      SumStep(i);
      UndoneCycle(k, Enciphered(k, b, i), Sum(i));
    }
  }

  lemma DecipherUndoesEncipher(k: Key, b: Block, n: nat)
    ensures Deciphered(k, Enciphered(k, b, n), n, 0) == b
  {
    DecipherRetraces(k, b, n, 0);
  }

  /** Enciphering goes back through every state of deciphering. */
  lemma {:induction false} EncipherRetraces(k: Key, b: Block, n: nat, i: nat)
    requires i <= n
    ensures Enciphered(k, Deciphered(k, b, n, 0), i) == Deciphered(k, b, n, i)
  {
    hide Cycle, UndoCycle, Sum, Add, Subtract;
    if i > 0 {
      EncipherRetraces(k, b, n, i - 1);
      SumStep(i - 1);
      UndoneCycle(k, Deciphered(k, b, n, i), Sum(i - 1));
    }
  }

  lemma EncipherUndoesDecipher(k: Key, b: Block, n: nat)
    ensures Enciphered(k, Deciphered(k, b, n, 0), n) == b
  {
    EncipherRetraces(k, b, n, n);
  }

  /** Encipher the first two words in place. The key may lie in the same array. */
  method Encipher(numCycles: nat, v: array<Word>, k: array<Word>)
    requires v.Length >= 2 && k.Length >= 4
    modifies v
    ensures Block(v[0], v[1]) == Enciphered(old(k[..]), old(Block(v[0], v[1])), numCycles)
    ensures forall i :: 2 <= i < v.Length ==> v[i] == old(v[i])
  {
    hide LowTerm, HighTerm, Sum, Add, Subtract;
    var key := k[..];
    ghost var b := Block(v[0], v[1]);
    var v0, v1 := v[0], v[1];
    var sum: Word := 0;
    SumStart();
    for i := 0 to numCycles
      invariant v[..] == old(v[..])
      invariant sum == Sum(i) && Block(v0, v1) == Enciphered(key, b, i)
    {
      SumStep(i);
      v0 := Add(v0, LowTerm(key, v1, sum));
      sum := Add(sum, DELTA);
      v1 := Add(v1, HighTerm(key, v0, sum));
    }
    v[0], v[1] := v0, v1;
  }

  /** Decipher the first two words in place. */
  method Decipher(numCycles: nat, v: array<Word>, k: array<Word>)
    requires v.Length >= 2 && k.Length >= 4
    modifies v
    ensures Block(v[0], v[1]) == Deciphered(old(k[..]), old(Block(v[0], v[1])), numCycles, 0)
    ensures forall i :: 2 <= i < v.Length ==> v[i] == old(v[i])
  {
    hide LowTerm, HighTerm, Add, Subtract, Sum;
    var key := k[..];
    ghost var b := Block(v[0], v[1]);
    var v0, v1 := v[0], v[1];
    SumIsProduct(numCycles);
    var sum: Word := DELTA * numCycles % M32;
    for i := 0 to numCycles
      invariant v[..] == old(v[..])
      invariant sum == Sum(numCycles - i) && Block(v0, v1) == Deciphered(key, b, numCycles, numCycles - i)
    {
      SumStep(numCycles - i - 1);
      v1 := Subtract(v1, HighTerm(key, v0, sum));
      sum := Subtract(sum, DELTA);
      v0 := Subtract(v0, LowTerm(key, v1, sum));
    }
    v[0], v[1] := v0, v1;
  }

  lemma SumStart()
    ensures Sum(0) == 0
  {}

  lemma SumIsProduct(n: nat)
    ensures Sum(n) == DELTA * n % M32
  {}

  /** Enciphering and then deciphering in place leaves the array as it was. */
  method ThereAndBack(numCycles: nat, v: array<Word>, k: array<Word>)
    requires v.Length >= 2 && k.Length >= 4 && v != k
    modifies v
    ensures v[..] == old(v[..])
  {
    hide Enciphered, Deciphered;
    DecipherUndoesEncipher(k[..], Block(v[0], v[1]), numCycles);
    Encipher(numCycles, v, k);
    Decipher(numCycles, v, k);
  }
}
