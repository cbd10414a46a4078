/** Unsigned machine arithmetic. */
module Words {
  /** 32-bit unsigned arithmetic wraps at this value. */
  const M32: nat := 0x1_0000_0000
  const M64: nat := 0x1_0000_0000_0000_0000

  type Word = x: int | 0 <= x < 0x1_0000_0000

  function Wrap(x: int): Word {
    x % M32
  }

  lemma WrapSmall(x: int)
    ensures 0 <= x < M32 ==> Wrap(x) == x
  {}

  /** Wrapping in between does not matter. */
  lemma WrapWrap(x: int, y: int)
    ensures Wrap(Wrap(x) + y) == Wrap(x + y)
  {
    var q, r := x / M32, x % M32;
    var k, s := (r + y) / M32, (r + y) % M32;
    assert x + y == M32 * (q + k) + s;
  }

  lemma DivModUnique(x: int, n: nat, q: int, r: nat)
    requires r < n && x == n * q + r
    ensures x / n == q && x % n == r
  {
    var d := q - x / n;
    assert n * d == n * q - n * (x / n) == x % n - r;
    assert n * d < n && n * d > 0 - n;
    assert d == 0;
  }
}
