/** The number that the prime test misjudges is prime: a certificate by powers of two. */
module PrimeCertificate {
  import opened Words
  import opened Primes

  // ---- remainders

  function Rem(x: nat, n: nat): (r: nat)
    requires n > 0
    ensures r < n
  {
    x % n
  }

  lemma RemIs(n: nat, q: nat, r: nat)
    requires r < n
    ensures Rem(n * q + r, n) == r
  {
    DivModUnique(n * q + r, n, q, r);
  }

  lemma RemSplit(x: nat, n: nat) returns (q: nat)
    requires n > 0
    ensures x == n * q + Rem(x, n)
  {
    q := x / n;
  }

  lemma DividesIs(d: nat, n: nat)
    requires d > 0
    ensures Divides(d, n) <==> Rem(n, d) == 0
  {}

  lemma Distribute(n: int, a: int, b: int)
    ensures n * (a + b) == n * a + n * b
  {}

  lemma Associate(a: int, b: int, c: int)
    ensures a * b * c == a * (b * c)
  {}

  lemma RemMultiple(n: nat, k: nat, x: nat)
    requires n > 0
    ensures Rem(n * k + x, n) == Rem(x, n)
  {
    hide Rem;
    var q := RemSplit(x, n);
    Distribute(n, k, q);
    RemIs(n, k + q, Rem(x, n));
  }

  lemma DividesTimes(p: nat, m: nat)
    requires p > 0
    ensures Divides(p, p * m)
  {
    hide Rem, Divides;
    RemIs(p, m, 0);
    DividesIs(p, p * m);
  }

  lemma Quotient(p: nat, x: nat) returns (k: nat)
    requires p > 0 && Divides(p, x)
    ensures x == p * k
  {
    k := x / p;
  }

  // ---- powers of two

  function Power(e: nat): nat {
    if e == 0 then 1 else 2 * Power(e - 1)
  }

  lemma {:induction false} PowerAdd(a: nat, b: nat)
    ensures Power(a + b) == Power(a) * Power(b)
  {
    if a > 0 {
      PowerAdd(a - 1, b);
      Associate(2, Power(a - 1), Power(b));
    }
  }

  /** The remainder of a power of two is `v`. */
  predicate PowerRem(n: nat, e: nat, v: nat)
    requires n > 0
  {
    Rem(Power(e), n) == v
  }

  lemma FirstPower(n: nat)
    requires n > 2
    ensures PowerRem(n, 1, 2)
  {
    assert Power(1) == 2;
  }

  /** From the remainder `h` of one power to that of its square, or twice its square; `k` is the quotient. */
  lemma NextPower(n: nat, e: nat, h: nat, bit: nat, k: nat, v: nat)
    requires n > 0 && PowerRem(n, e, h) && bit < 2 && h * h * (1 + bit) == n * k + v && v < n
    ensures PowerRem(n, 2 * e + bit, v)
  {
    hide Rem, Power;
    PowerSquare(e, bit);
    RemSquare(n, Power(e), 1 + bit, k, v);
  }

  function Square(x: nat, c: nat): nat {
    x * x * c
  }

  lemma RemSquare(n: nat, x: nat, c: nat, k: nat, v: nat)
    requires n > 0 && Square(Rem(x, n), c) == n * k + v && v < n
    ensures Rem(Square(x, c), n) == v
  {
    hide Rem, Square;
    var q := RemSplit(x, n);
    var m := SquareOfSum(n, q, Rem(x, n), c);
    RemMultiple(n, m, Square(Rem(x, n), c));
    RemIs(n, k, v);
  }

  lemma PowerSquare(e: nat, bit: nat)
    requires bit < 2
    ensures Power(2 * e + bit) == Power(e) * Power(e) * (1 + bit)
  {
    assert Power(bit) == 1 + bit;
    hide Power;
    PowerAdd(e, e);
    PowerAdd(e + e, bit);
  }

  lemma SquareOfSum(n: nat, q: nat, h: nat, c: nat) returns (m: nat)
    ensures Square(n * q + h, c) == n * m + Square(h, c)
  {
    var a := n * q;
    var x := a + h;
    m := q * (x + h) * c;
    assert x * x == a * (x + h) + h * h;
    Associate(n, q, x + h);
    Distribute(c, n * (q * (x + h)), h * h);
    Associate(n, q * (x + h), c);
  }

  // ---- the order of 2

  predicate One(p: nat, t: nat)
    requires p >= 2
  {
    PowerRem(p, t, 1)
  }

  ghost predicate IsOrder(p: nat, t: nat)
    requires p >= 2
  {
    1 <= t && One(p, t) && forall u: nat :: 1 <= u < t ==> !One(p, u)
  }

  lemma OneMinus(p: nat, s: nat, t: nat)
    requires p >= 2 && t <= s && One(p, t)
    ensures One(p, s - t) == One(p, s)
  {
    hide Power, Rem;
    PowerAdd(s - t, t);
    DropOne(p, Power(s - t), Power(t));
  }

  lemma DropOne(p: nat, x: nat, y: nat)
    requires p > 0 && Rem(y, p) == 1
    ensures Rem(x * y, p) == Rem(x, p)
  {
    hide Rem;
    var k := RemSplit(y, p);
    Distribute(x, p * k, 1);
    assert x * (p * k) == p * (x * k);
    RemMultiple(p, x * k, x);
  }

  lemma {:induction false} OneTimes(p: nat, t: nat, k: nat)
    requires p >= 2 && One(p, t)
    ensures One(p, t * k)
  {
    if k > 0 {
      OneTimes(p, t, k - 1);
      hide One;
      Distribute(t, k - 1, 1);
      OneMinus(p, t * k, t);
    } else {
      assert Power(0) == 1;
    }
  }

  lemma {:induction false} OrderDivides(p: nat, t: nat, s: nat) returns (k: nat)
    requires p >= 2 && IsOrder(p, t) && One(p, s)
    ensures s == t * k
  {
    hide One;
    if s == 0 {
      return 0;
    }
    assert s >= t;
    OneMinus(p, s, t);
    k := OrderDivides(p, t, s - t);
    Distribute(t, k, 1);
    k := k + 1;
  }

  lemma OrderExists(p: nat, s: nat) returns (t: nat)
    requires p >= 2 && 1 <= s && One(p, s)
    ensures IsOrder(p, t)
  {
    hide One;
    t := 1;
    while !One(p, t)
      invariant 1 <= t <= s && forall u: nat :: 1 <= u < t ==> !One(p, u)
      decreases s - t
    {
      t := t + 1;
    }
  }

  /** Modulo an odd number, factors of two cancel. */
  lemma {:induction false} CancelPower(p: nat, i: nat, x: nat)
    requires p % 2 == 1 && Divides(p, Power(i) * x)
    ensures Divides(p, x)
  {
    hide Divides;
    if i > 0 {
      assert Power(i) * x == Power(i - 1) * (2 * x);
      CancelPower(p, i - 1, 2 * x);
      CancelTwo(p, x);
    }
  }

  lemma CancelTwo(p: nat, x: nat)
    requires p % 2 == 1 && Divides(p, 2 * x)
    ensures Divides(p, x)
  {
    hide Divides;
    var k := Quotient(p, 2 * x);
    HalfOfProduct(p / 2, x, k);
    DividesTimes(p, x - p / 2 * k);
  }

  lemma HalfOfProduct(m: nat, x: nat, k: nat)
    requires 2 * x == (2 * m + 1) * k
    ensures x - m * k >= 0 && x == (2 * m + 1) * (x - m * k)
  {
    var a := m * k;
    assert (2 * m + 1) * k == 2 * a + k;
    assert k == 2 * (x - a);
    assert (2 * m + 1) * (x - a) == 2 * (m * (x - a)) + (x - a);
    assert m * k == 2 * (m * (x - a));
  }

  lemma SignOfProduct(p: nat, d: int)
    ensures if d >= 0 then p * d >= 0 else p * d <= 0 && (p > 0 ==> p * d < 0)
  {}

  lemma EqualRem(p: nat, a: nat, x: nat)
    requires p > 0 && x >= 1 && Rem(a * x, p) == Rem(a, p)
    ensures Divides(p, a * (x - 1))
  {
    hide Rem, Divides;
    var i := RemSplit(a * x, p);
    var j := RemSplit(a, p);
    Distribute(a, x - 1, 1);
    Distribute(p, i - j, j);
    assert a * (x - 1) == p * (i - j);
    SignOfProduct(a, x - 1);
    SignOfProduct(p, i - j);
    DividesTimes(p, i - j);
  }

  lemma OneMore(p: nat, x: nat)
    requires p >= 2 && x >= 1 && Divides(p, x - 1)
    ensures Rem(x, p) == 1
  {
    hide Rem, Divides;
    var k := Quotient(p, x - 1);
    RemIs(p, k, 1);
  }

  /** Below its order the powers of two are distinct. */
  lemma PowersDiffer(p: nat, t: nat, i: nat, j: nat)
    requires p >= 2 && p % 2 == 1 && IsOrder(p, t) && i < j < t
    ensures Rem(Power(i), p) != Rem(Power(j), p)
  {
    hide Power, Divides, Rem;
    PowerAdd(i, j - i);
    PowerPositive(j - i);
    if Rem(Power(i), p) == Rem(Power(j), p) {
      EqualRem(p, Power(i), Power(j - i));
      CancelPower(p, i, Power(j - i) - 1);
      OneMore(p, Power(j - i));
      var one := One(p, j - i);
    }
  }

  lemma {:induction false} PowerPositive(e: nat)
    ensures Power(e) >= 1
  {
    if e > 0 {
      PowerPositive(e - 1);
    }
  }

  lemma PowerNotZero(p: nat, i: nat)
    requires p >= 2 && p % 2 == 1
    ensures Rem(Power(i), p) != 0
  {
    hide Power, Divides, Rem;
    if Rem(Power(i), p) == 0 {
      DividesIs(p, Power(i));
      CancelPower(p, i, 1);
      var k := Quotient(p, 1);
      NoUnit(p, k);
    }
  }

  ghost function Residues(p: nat, i: nat): set<nat>
    requires p >= 2
  {
    set k: nat | k < i :: Rem(Power(k), p)
  }

  lemma {:induction false} ResiduesCount(p: nat, t: nat, i: nat)
    requires p >= 2 && p % 2 == 1 && IsOrder(p, t) && i <= t
    ensures |Residues(p, i)| == i
  {
    hide Power, Rem, IsOrder;
    if i == 0 {
      assert Residues(p, 0) == {};
    } else {
      ResiduesCount(p, t, i - 1);
      var r := Rem(Power(i - 1), p);
      assert Residues(p, i) == Residues(p, i - 1) + {r};
      forall k: nat | k < i - 1
        ensures Rem(Power(k), p) != r
      {
        PowersDiffer(p, t, k, i - 1);
      }
    }
  }

  lemma OrderBound(p: nat, t: nat)
    requires p >= 2 && p % 2 == 1 && IsOrder(p, t)
    ensures t < p
  {
    hide Power, Rem, IsOrder;
    ResiduesCount(p, t, t);
    forall k: nat
      ensures 1 <= Rem(Power(k), p) < p
    {
      PowerNotZero(p, k);
    }
    SubsetBound(Residues(p, t), p);
  }

  lemma SubsetBound(s: set<nat>, p: nat)
    requires p >= 1 && forall x :: x in s ==> 1 <= x < p
    ensures |s| < p
    decreases p
  {
    if p > 1 {
      SubsetBound(s - {p - 1}, p - 1);
    } else {
      assert s == {};
    }
  }

  // ---- primality

  /** Every divisor of `m` below `b` divides `c`. */
  ghost predicate SmallDivisorsDivide(m: nat, b: nat, c: nat) {
    forall t: nat :: 1 <= t < b && Divides(t, m) ==> Divides(t, c)
  }

  /** What is 1 modulo `n` is 1 modulo a divisor of `n`. */
  lemma OneModDivisor(n: nat, p: nat, m: nat, x: nat)
    requires p >= 2 && n == p * m && n > 1 && Rem(x, n) == 1
    ensures Rem(x, p) == 1
  {
    hide Rem;
    var k := RemSplit(x, n);
    Associate(p, m, k);
    RemIs(p, m * k, 1);
  }

  /** No divisor of `n` can make 1 of a number that less 1 has the inverse `u` modulo `n`. */
  lemma InverseForbidsOne(n: nat, p: nat, m: nat, x: nat, u: nat, w: nat)
    requires p >= 2 && n == p * m && n > 0 && u * Rem(x, n) == n * w + u + 1
    ensures Rem(x, p) != 1
  {
    hide Rem;
    if Rem(x, p) == 1 {
      var i := RemSplit(x, n);
      var k := RemSplit(x, p);
      Associate(p, m, i);
      Distribute(p, k - m * i, m * i);
      Combine(p, m, Rem(x, n), u, w, k - m * i);
    }
  }

  lemma Combine(p: int, m: int, v: int, u: int, w: int, k: int)
    requires p >= 2 && v - 1 == p * k
    ensures u * v != p * m * w + u + 1
  {
    var d := u * k - m * w;
    Distribute(u, v - 1, 1);
    assert u * (p * k) == p * (u * k);
    Associate(p, m, w);
    Distribute(p, d, m * w);
    NoUnit(p, d);
  }

  lemma NoUnit(p: int, d: int)
    requires p >= 2
    ensures p * d != 1
  {
    if d >= 1 {
      assert p * d >= p;
    } else {
      assert p * d <= 0;
    }
  }

  /** `n` is prime if 2 to the power of `n - 1` is 1 modulo `n`, 2 to the power of `c`, less 1, has the
      inverse `u` modulo `n`, and every divisor of `n - 1` that may be the order of 2 modulo a divisor of `n`
      below its root divides `c`. */
  lemma Certificate(n: nat, c: nat, b: nat, v: nat, u: nat, w: nat)
    requires n >= 3 && n % 2 == 1 && n < b * b
    requires PowerRem(n, n - 1, 1) && PowerRem(n, c, v) && u * v == n * w + u + 1
    requires SmallDivisorsDivide(n - 1, b, c)
    ensures Prime(n)
  {
    hide Power, Rem, Divides;
    forall p: nat | 2 <= p < b
      ensures !Divides(p, n)
    {
      if Divides(p, n) {
        NoSmallFactor(n, c, b, u, w, p);
      }
    }
    NoSmallDivisor(n, b);
  }

  lemma NoSmallFactor(n: nat, c: nat, b: nat, u: nat, w: nat, p: nat)
    requires n >= 3 && n % 2 == 1 && 2 <= p < b
    requires PowerRem(n, n - 1, 1) && u * Rem(Power(c), n) == n * w + u + 1
    requires SmallDivisorsDivide(n - 1, b, c)
    ensures !Divides(p, n)
  {
    hide Power, Rem, Divides;
    if Divides(p, n) {
      var m := Quotient(p, n);
      OddDivisor(n, p, m);
      OneModDivisor(n, p, m, Power(n - 1));
      var t := OrderExists(p, n - 1);
      OrderBound(p, t);
      var k := OrderDivides(p, t, n - 1);
      DividesTimes(t, k);
      OneOfMultiple(p, t, c);
      InverseForbidsOne(n, p, m, Power(c), u, w);
    }
  }

  lemma OneOfMultiple(p: nat, t: nat, c: nat)
    requires p >= 2 && t >= 1 && One(p, t) && Divides(t, c)
    ensures One(p, c)
  {
    hide One, Divides;
    var k := Quotient(t, c);
    OneTimes(p, t, k);
  }

  lemma EvenProduct(p: nat, m: nat)
    requires p % 2 == 0
    ensures p * m % 2 == 0
  {
    Associate(2, p / 2, m);
  }

  lemma OddDivisor(n: nat, p: nat, m: nat)
    requires n % 2 == 1 && n == p * m
    ensures p % 2 == 1
  {
    if p % 2 == 0 {
      EvenProduct(p, m);
    }
  }

  /** A prime that divides a product divides a factor. */
  lemma Euclid(p: nat, a: nat, b: nat)
    requires Prime(p) && Divides(p, a * b)
    ensures Divides(p, a) || Divides(p, b)
  {
    hide Divides;
    DividesTimes(p, a);
    var x := 1;
    while !Divides(p, a * x)
      invariant 1 <= x <= p && forall y: nat :: 1 <= y < x ==> !Divides(p, a * y)
      decreases p - x
    {
      assert a * p == p * a;
      x := x + 1;
    }
    assert a * p == p * a;
    LeastMultiple(p, a, x, p);
    LeastMultiple(p, a, x, b);
    if x == 1 {
      assert a * x == a;
    }
  }

  /** If `a * x` is the least multiple of `a` that `p` divides, `x` divides every such factor. */
  lemma LeastMultiple(p: nat, a: nat, x: nat, y: nat)
    requires p >= 2 && 1 <= x && Divides(p, a * x) && Divides(p, a * y)
    requires forall z: nat :: 1 <= z < x ==> !Divides(p, a * z)
    ensures Divides(x, y)
  {
    hide Divides, Rem;
    var q := RemSplit(y, x);
    var r := Rem(y, x);
    Distribute(a, x * q, r);
    Associate(a, x, q);
    RestDivides(p, a * x, a * y, q, a * r);
    DividesIs(x, y);
  }

  lemma RestDivides(p: nat, s: nat, t: nat, q: nat, r: nat)
    requires p >= 2 && t == s * q + r && Divides(p, s) && Divides(p, t)
    ensures Divides(p, r)
  {
    hide Divides, Rem;
    var i := Quotient(p, s);
    Associate(p, i, q);
    RemMultiple(p, i * q, r);
    DividesIs(p, r);
    DividesIs(p, t);
  }

  /** A divisor of `p * c` divides `c` if `p` divides what remains. */
  lemma DropPrime(p: nat, c: nat, t: nat, k: nat)
    requires p >= 1 && t >= 1 && t * k == p * c && Divides(p, k)
    ensures Divides(t, c)
  {
    hide Divides;
    var h := Quotient(p, k);
    assert t * (p * h) == p * (t * h);
    SameFactor(p, t * h, c);
    DividesTimes(t, h);
  }

  lemma SameFactor(p: nat, a: nat, b: nat)
    requires p >= 1 && p * a == p * b
    ensures a == b
  {
    Distribute(p, a - b, b);
    assert p * (a - b) == 0;
  }

  lemma Prime181()
    ensures Prime(181)
  {
    assert !Divides(2, 181) && !Divides(3, 181) && !Divides(4, 181) && !Divides(5, 181);
    assert !Divides(6, 181) && !Divides(7, 181) && !Divides(8, 181) && !Divides(9, 181);
    assert !Divides(10, 181) && !Divides(11, 181) && !Divides(12, 181) && !Divides(13, 181);
    NoSmallDivisor(181, 14);
  }

  /** The large prime factor of 2^32 - 6, and what is left of its predecessor without a factor of 181. */
  const FACTOR := 22605091
  const FACTOR_REST := 124890

  lemma OrdersForFactor(t: nat)
    requires 1 <= t < 4755 && Divides(t, FACTOR - 1)
    ensures Divides(t, FACTOR_REST)
  {
    Prime181();
    hide Prime, Divides;
    var k := Quotient(t, FACTOR - 1);
    DividesTimes(181, FACTOR_REST);
    Euclid(181, t, k);
    if !Divides(181, k) {
      var s := Quotient(181, t);
      Associate(181, s, k);
      SameFactor(181, s * k, FACTOR_REST);
      DividesTimes(181, 690);
      Euclid(181, s, k);
      var r := Quotient(181, s);
    }
    DropPrime(181, FACTOR_REST, t, k);
  }

  lemma FactorIsPrime()
    ensures Prime(FACTOR)
  {
    FactorPower();
    FactorRestPower();
    hide PowerRem, Prime, Divides;
    forall t: nat | 1 <= t < 4755 && Divides(t, FACTOR - 1)
      ensures Divides(t, FACTOR_REST)
    {
      OrdersForFactor(t);
    }
    Certificate(FACTOR, FACTOR_REST, 4755, 13954217, 19569746, 12080485);
  }

  lemma FactorPower()
    ensures PowerRem(22605091, 22605090, 1)
  {
    hide PowerRem;
    FirstPower(22605091);
    NextPower(22605091, 1, 2, 0, 0, 4);
    NextPower(22605091, 2, 4, 1, 0, 32);
    NextPower(22605091, 5, 32, 0, 0, 1024);
    NextPower(22605091, 10, 1024, 1, 0, 2097152);
    NextPower(22605091, 21, 2097152, 1, 389120, 12288);
    NextPower(22605091, 43, 12288, 0, 6, 15364398);
    NextPower(22605091, 86, 15364398, 0, 10442989, 9245405);
    NextPower(22605091, 172, 9245405, 0, 3781339, 1417176);
    NextPower(22605091, 344, 1417176, 1, 177693, 9194889);
    NextPower(22605091, 689, 9194889, 1, 7480260, 9440982);
    NextPower(22605091, 1379, 9440982, 1, 7886023, 14705555);
    NextPower(22605091, 2759, 14705555, 0, 9566577, 4214518);
    NextPower(22605091, 5518, 4214518, 1, 1571518, 16546510);
    NextPower(22605091, 11037, 16546510, 1, 24223480, 16623520);
    NextPower(22605091, 22075, 16623520, 0, 12224742, 11828878);
    NextPower(22605091, 44150, 11828878, 1, 12379720, 12323248);
    NextPower(22605091, 88301, 12323248, 0, 6718063, 15810771);
    NextPower(22605091, 176602, 15810771, 0, 11058592, 1122569);
    NextPower(22605091, 353204, 1122569, 1, 111493, 12908659);
    NextPower(22605091, 706409, 12908659, 0, 7371502, 3661599);
    NextPower(22605091, 1412818, 3661599, 0, 593110, 1713791);
    NextPower(22605091, 2825636, 1713791, 0, 129930, 118051);
    NextPower(22605091, 5651272, 118051, 1, 1232, 22605090);
    NextPower(22605091, 11302545, 22605090, 0, 22605089, 1);
  }

  lemma FactorRestPower()
    ensures PowerRem(22605091, 124890, 13954217)
  {
    hide PowerRem;
    FirstPower(22605091);
    NextPower(22605091, 1, 2, 1, 0, 8);
    NextPower(22605091, 3, 8, 1, 0, 128);
    NextPower(22605091, 7, 128, 1, 0, 32768);
    NextPower(22605091, 15, 32768, 0, 47, 11302547);
    NextPower(22605091, 30, 11302547, 0, 5651274, 5651275);
    NextPower(22605091, 60, 5651275, 1, 2825638, 14128192);
    NextPower(22605091, 121, 14128192, 1, 17660252, 14834796);
    NextPower(22605091, 243, 14834796, 1, 19470938, 19377874);
    NextPower(22605091, 487, 19377874, 1, 33222781, 13741681);
    NextPower(22605091, 975, 13741681, 1, 16707191, 20502141);
    NextPower(22605091, 1951, 20502141, 0, 18594828, 6514533);
    NextPower(22605091, 3902, 6514533, 1, 3754830, 6576648);
    NextPower(22605091, 7805, 6576648, 1, 3826775, 720283);
    NextPower(22605091, 15611, 720283, 0, 22950, 20761639);
    NextPower(22605091, 31222, 20761639, 1, 38137042, 3051820);
    NextPower(22605091, 62445, 3051820, 0, 412013, 13954217);
  }

  lemma OrdersForMisjudged(t: nat)
    requires 1 <= t < 65536 && Divides(t, MISJUDGED - 1)
    ensures Divides(t, 190)
  {
    FactorIsPrime();
    hide Prime, Divides;
    var k := Quotient(t, MISJUDGED - 1);
    DividesTimes(FACTOR, 190);
    Euclid(FACTOR, t, k);
    if Divides(FACTOR, t) {
      var h := Quotient(FACTOR, t);
    }
    DropPrime(FACTOR, 190, t, k);
  }

  lemma MisjudgedPower()
    ensures PowerRem(4294967291, 4294967290, 1)
  {
    hide PowerRem;
    FirstPower(4294967291);
    NextPower(4294967291, 1, 2, 1, 0, 8);
    NextPower(4294967291, 3, 8, 1, 0, 128);
    NextPower(4294967291, 7, 128, 1, 0, 32768);
    NextPower(4294967291, 15, 32768, 1, 0, 2147483648);
    NextPower(4294967291, 31, 2147483648, 1, 2147483650, 2147483658);
    NextPower(4294967291, 63, 2147483658, 1, 2147483670, 2147483958);
    NextPower(4294967291, 127, 2147483958, 1, 2147484270, 2147678958);
    NextPower(4294967291, 255, 2147678958, 1, 2147874288, 1132017720);
    NextPower(4294967291, 511, 1132017720, 1, 596728231, 3026704579);
    NextPower(4294967291, 1023, 3026704579, 1, 4265895401, 2956805791);
    NextPower(4294967291, 2047, 2956805791, 1, 4071137167, 1942866765);
    NextPower(4294967291, 4095, 1942866765, 1, 1757746222, 3714305848);
    NextPower(4294967291, 8191, 3714305848, 1, 6424294760, 3031303048);
    NextPower(4294967291, 16383, 3031303048, 1, 4278867589, 353149209);
    NextPower(4294967291, 32767, 353149209, 1, 58074651, 1153410921);
    NextPower(4294967291, 65535, 1153410921, 1, 619495638, 3236959824);
    NextPower(4294967291, 131071, 3236959824, 1, 4879156553, 1576914029);
    NextPower(4294967291, 262143, 1576914029, 1, 1157940299, 578265673);
    NextPower(4294967291, 524287, 578265673, 1, 155713031, 2212816837);
    NextPower(4294967291, 1048575, 2212816837, 1, 2280137669, 889384459);
    NextPower(4294967291, 2097151, 889384459, 1, 368340274, 3033467628);
    NextPower(4294967291, 4194303, 3033467628, 1, 4284980642, 289711946);
    NextPower(4294967291, 8388607, 289711946, 1, 39084354, 1290348818);
    NextPower(4294967291, 16777215, 1290348818, 1, 775326077, 3653646841);
    NextPower(4294967291, 33554431, 3653646841, 1, 6216175506, 4113184316);
    NextPower(4294967291, 67108863, 4113184316, 1, 7878190482, 2319251450);
    NextPower(4294967291, 134217727, 2319251450, 1, 2504758208, 1430430472);
    NextPower(4294967291, 268435455, 1430430472, 1, 952804152, 2883293336);
    NextPower(4294967291, 536870911, 2883293336, 0, 1935609726, 110536630);
    NextPower(4294967291, 1073741822, 110536630, 1, 5689610, 4294967290);
    NextPower(4294967291, 2147483645, 4294967290, 0, 4294967289, 1);
  }

  lemma MisjudgedRestPower()
    ensures PowerRem(4294967291, 190, 1073745729)
  {
    hide PowerRem;
    FirstPower(4294967291);
    NextPower(4294967291, 1, 2, 0, 0, 4);
    NextPower(4294967291, 2, 4, 1, 0, 32);
    NextPower(4294967291, 5, 32, 1, 0, 2048);
    NextPower(4294967291, 11, 2048, 1, 0, 8388608);
    NextPower(4294967291, 23, 8388608, 1, 32768, 163840);
    NextPower(4294967291, 47, 163840, 1, 12, 2147483708);
    NextPower(4294967291, 95, 2147483708, 0, 1073741885, 1073745729);
  }

  /** The prime test is wrong about 2^32 - 5. */
  lemma MisjudgedIsPrime()
    ensures Prime(MISJUDGED)
  {
    MisjudgedPower();
    MisjudgedRestPower();
    hide PowerRem, Prime, Divides;
    forall t: nat | 1 <= t < 65536 && Divides(t, MISJUDGED - 1)
      ensures Divides(t, 190)
    {
      OrdersForMisjudged(t);
    }
    Certificate(MISJUDGED, 190, 65536, 1073745729, 1771216906, 442805837);
  }
}
