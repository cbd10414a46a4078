/** Conway's Game of Life on a torus, in two bit-packed buffers. */
module Life {
  import opened Words
  import opened ByteBits

  /** A cell by its coordinates. */
  type Cell = (int, int)

  /** A coordinate on a torus of size `n`. */
  function Torus(x: int, n: nat): int
    requires n > 0
  {
    x % n
  }

  lemma TorusNearby(x: int, n: nat)
    requires n > 0 && -1 <= x <= n
    ensures Torus(x, n) == if x < 0 then n - 1 else if x > n - 1 then 0 else x
  {}

  /** The directions in which a cell has neighbours. */
  const DIRECTIONS: set<Cell> := {(-1, -1), (0, -1), (1, -1), (-1, 0), (1, 0), (-1, 1), (0, 1), (1, 1)}

  predicate AliveAt(alive: set<Cell>, w: nat, h: nat, x: int, y: int)
    requires w > 0 && h > 0
  {
    (Torus(x, w), Torus(y, h)) in alive
  }

  /** Those of the directions `ds` in which a cell has a living neighbour. */
  function Living(alive: set<Cell>, w: nat, h: nat, x: int, y: int, ds: set<Cell>): set<Cell>
    requires w > 0 && h > 0
  {
    set d | d in ds && AliveAt(alive, w, h, x + d.0, y + d.1)
  }

  /** The number of those directions. */
  function Neighbours(alive: set<Cell>, w: nat, h: nat, x: int, y: int, ds: set<Cell>): nat
    requires w > 0 && h > 0
  {
    |Living(alive, w, h, x, y, ds)|
  }

  /** Birth on three living neighbours, survival on two or three. */
  predicate LivesOn(alive: set<Cell>, w: nat, h: nat, x: int, y: int)
    requires w > 0 && h > 0
  {
    var n := Neighbours(alive, w, h, x, y, DIRECTIONS);
    n == 3 || (n == 2 && (x, y) in alive)
  }

  function NextGeneration(alive: set<Cell>, w: nat, h: nat): set<Cell>
    requires w > 0 && h > 0
  {
    set x, y | 0 <= x < w && 0 <= y < h && LivesOn(alive, w, h, x, y) :: (x, y)
  }

  function Generation(alive: set<Cell>, w: nat, h: nat, n: nat): set<Cell>
    requires w > 0 && h > 0
  {
    if n == 0 then alive else NextGeneration(Generation(alive, w, h, n - 1), w, h)
  }

  lemma AllDirections()
    ensures {} + {(-1, -1)} + {(0, -1)} + {(1, -1)} + {(-1, 0)} + {(1, 0)} + {(-1, 1)} + {(0, 1)} + {(1, 1)}
            == DIRECTIONS
  {}

  lemma OneMoreDirection(alive: set<Cell>, w: nat, h: nat, x: int, y: int, ds: set<Cell>, d: Cell)
    requires w > 0 && h > 0 && d !in ds
    ensures Neighbours(alive, w, h, x, y, ds + {d}) ==
            Neighbours(alive, w, h, x, y, ds) + if AliveAt(alive, w, h, x + d.0, y + d.1) then 1 else 0
  {
    var before, after := Living(alive, w, h, x, y, ds), Living(alive, w, h, x, y, ds + {d});
    assert after == if AliveAt(alive, w, h, x + d.0, y + d.1) then before + {d} else before;
  }

  /** Two universes of `w` times `h` cells, eight cells of a row to a byte, leftmost in the top bit. */
  class Universe {
    const w: nat
    const h: nat
    const cells: array3<bv8>

    ghost predicate Valid() {
      w > 0 && h > 0 && w % 8 == 0 && cells.Length0 == 2 && cells.Length1 == w / 8 && cells.Length2 == h
    }

    constructor (w: nat, h: nat)
      requires w > 0 && h > 0 && w % 8 == 0
      ensures Valid() && this.w == w && this.h == h && fresh(cells)
    {
      this.w, this.h := w, h;
      cells := new bv8[2, w / 8, h];
    }

    ghost predicate Alive(u: nat, x: int, y: int)
      requires Valid() && u < 2 && 0 <= x < w && 0 <= y < h
      reads cells
    {
      BitAt(cells[u, x / 8, y], 7 - x % 8)
    }

    /** The living cells of universe `u`. */
    ghost function Population(u: nat): set<Cell>
      requires Valid() && u < 2
      reads cells
    {
      set x, y | 0 <= x < w && 0 <= y < h && Alive(u, x, y) :: (x, y)
    }

    method Clear(u: nat)
      requires Valid() && u < 2
      modifies cells
      ensures Population(u) == {}
      ensures forall v: nat :: v < 2 && v != u ==> Population(v) == old(Population(v))
    {
      for x := 0 to w / 8
        invariant forall i, j :: 0 <= i < x && 0 <= j < h ==> cells[u, i, j] == 0
        invariant forall v, i, j :: 0 <= v < 2 && v != u && 0 <= i < w / 8 && 0 <= j < h ==>
                    cells[v, i, j] == old(cells[v, i, j])
      {
        for y := 0 to h
          invariant forall i, j :: 0 <= i < x && 0 <= j < h ==> cells[u, i, j] == 0
          invariant forall j :: 0 <= j < y ==> cells[u, x, j] == 0
          invariant forall v, i, j :: 0 <= v < 2 && v != u && 0 <= i < w / 8 && 0 <= j < h ==>
                      cells[v, i, j] == old(cells[v, i, j])
        {
          cells[u, x, y] := 0;
        }
      }
      assert forall x, y :: 0 <= x < w && 0 <= y < h ==> !Alive(u, x, y);
      assert forall v: nat, x, y :: v < 2 && v != u && 0 <= x < w && 0 <= y < h ==>
                                      Alive(v, x, y) == old(Alive(v, x, y));
    }

    lemma PopulationAt(u: nat, x: int, y: int)
      requires Valid() && u < 2 && 0 <= x < w && 0 <= y < h
      ensures (x, y) in Population(u) <==> Alive(u, x, y)
    {
      hide Alive;
    }

    lemma PopulationRange(u: nat)
      requires Valid() && u < 2
      ensures Inside(Population(u), w, h)
    {
      hide Alive;
    }

    /** Set the bit of a cell in its byte; no other bit changes. */
    method SetBit(u: nat, x: int, y: int)
      requires Valid() && u < 2 && 0 <= x < w && 0 <= y < h
      modifies cells
      ensures forall i, j :: 0 <= i < w && 0 <= j < h ==> Alive(u, i, j) == (old(Alive(u, i, j)) || (i == x && j == y))
      ensures forall v: nat, i, j :: v < 2 && v != u && 0 <= i < w && 0 <= j < h ==>
                Alive(v, i, j) == old(Alive(v, i, j))
    {
      hide BitAt, Mask;
      ghost var byte := cells[u, x / 8, y];
      cells[u, x / 8, y] := cells[u, x / 8, y] | Mask(7 - x % 8);
      forall i, j | 0 <= i < w && 0 <= j < h
        ensures Alive(u, i, j) == (old(Alive(u, i, j)) || (i == x && j == y))
      {
        if i / 8 == x / 8 && j == y {
          SetBitIsExact(byte, 7 - x % 8, 7 - i % 8);
        }
      }
    }

    method SetCell(u: nat, x: int, y: int)
      requires Valid() && u < 2 && 0 <= x && 0 <= y
      modifies cells
      ensures Population(u) == old(Population(u)) + if x < w && y < h then {(x, y)} else {}
      ensures forall v: nat :: v < 2 && v != u ==> Population(v) == old(Population(v))
    {
      hide Alive;
      if x >= w || y >= h {
        return;
      }
      SetBit(u, x, y);
    }

    method TestBit(u: nat, x: int, y: int) returns (cell: nat)
      requires Valid() && u < 2 && 0 <= x < w && 0 <= y < h
      ensures cell == if Alive(u, x, y) then 1 else 0
    {
      hide Mask;
      var k := 7 - x % 8;
      var tmp := cells[u, x / 8, y];
      tmp := tmp & Mask(k);
      cell := if tmp == 0 then 0 else 1;
    }

    /** The state of a cell; one step over an edge comes in on the other side. */
    method GetCell(u: nat, x: int, y: int) returns (cell: nat)
      requires Valid() && u < 2 && -1 <= x <= w && -1 <= y <= h
      ensures cell == if AliveAt(Population(u), w, h, x, y) then 1 else 0
      ensures cell == if (x % w, y % h) in Population(u) then 1 else 0
    {
      hide Torus, Alive, Population;
      AliveOnTorus(Population(u), w, h, x, y);
      var cx: int, cy: int := x, y;
      if cx < 0 { cx := w - 1; }
      if cx > w - 1 { cx := 0; }
      if cy < 0 { cy := h - 1; }
      if cy > h - 1 { cy := 0; }
      TorusNearby(x, w);
      TorusNearby(y, h);
      PopulationAt(u, cx, cy);
      cell := TestBit(u, cx, cy);
    }

    method GetNeighborhood(u: nat, x: int, y: int) returns (num: nat)
      requires Valid() && u < 2 && 0 <= x < w && 0 <= y < h
      ensures num == Neighbours(Population(u), w, h, x, y, DIRECTIONS) && num <= 8
    {
      hide AliveAt, Population, Neighbours;
      ghost var alive := Population(u);
      NoDirections(alive, w, h, x, y);
      num := 0;
      ghost var ds: set<Cell>;
      num, ds := AddNeighbor(u, x, y, -1, -1, num, {});
      num, ds := AddNeighbor(u, x, y, 0, -1, num, ds);
      num, ds := AddNeighbor(u, x, y, 1, -1, num, ds);
      num, ds := AddNeighbor(u, x, y, -1, 0, num, ds);
      num, ds := AddNeighbor(u, x, y, 1, 0, num, ds);
      num, ds := AddNeighbor(u, x, y, -1, 1, num, ds);
      num, ds := AddNeighbor(u, x, y, 0, 1, num, ds);
      num, ds := AddNeighbor(u, x, y, 1, 1, num, ds);
      AllDirections();
    }

    /** Add the neighbour in direction (dx, dy) to the count for the directions `ds`. */
    method AddNeighbor(u: nat, x: int, y: int, dx: int, dy: int, num: nat, ghost ds: set<Cell>)
      returns (sum: nat, ghost all: set<Cell>)
      requires Valid() && u < 2 && 0 <= x < w && 0 <= y < h && -1 <= dx <= 1 && -1 <= dy <= 1
      requires num == Neighbours(Population(u), w, h, x, y, ds) && (dx, dy) !in ds
      ensures all == ds + {(dx, dy)} && sum <= num + 1
      ensures sum == Neighbours(Population(u), w, h, x, y, ds + {(dx, dy)})
    {
      hide AliveAt, Population, Neighbours;
      OneMoreDirection(Population(u), w, h, x, y, ds, (dx, dy));
      var cell := GetCell(u, x + dx, y + dy);
      sum, all := num + cell, ds + {(dx, dy)};
    }

    /** The new cells among those left of column `x`, or in it above row `y`. */
    ghost function Visited(alive: set<Cell>, x: int, y: int): set<Cell>
      requires w > 0 && h > 0
    {
      set i, j | 0 <= i < w && 0 <= j < h && (i < x || (i == x && j < y)) && LivesOn(alive, w, h, i, j) :: (i, j)
    }

    /** Compute the next generation of universe `u` in the other one, whatever that held; `u` stays. */
    method Advance(u: nat) returns (next: nat)
      requires Valid() && u < 2
      modifies cells
      ensures next == 1 - u && Population(next) == NextGeneration(old(Population(u)), w, h)
      ensures Population(u) == old(Population(u))
    {
      hide LivesOn, Population, AliveAt, Neighbours;
      ghost var alive := Population(u);
      next := 1 - u;
      Clear(next);
      for x := 0 to w
        invariant Population(u) == alive
        invariant Population(next) == Visited(alive, x, 0)
      {
        for y := 0 to h
          invariant Population(u) == alive
          invariant Population(next) == Visited(alive, x, y)
        {
          var cell := GetCell(u, x, y);
          var n := GetNeighborhood(u, x, y);
          AliveInRange(alive, w, h, x, y);
          Rule(alive, w, h, x, y);
          if (cell == 0 && n == 3) || (cell != 0 && (n == 2 || n == 3)) {
            SetCell(next, x, y);
          }
          assert Visited(alive, x, y + 1) == Visited(alive, x, y) + if LivesOn(alive, w, h, x, y) then {(x, y)} else {};
        }
        assert Visited(alive, x + 1, 0) == Visited(alive, x, h);
      }
      assert Visited(alive, w, 0) == NextGeneration(alive, w, h);
    }

    /** `n` generations, alternating between the two universes. */
    method Simulate(u: nat, n: nat) returns (last: nat)
      requires Valid() && u < 2
      modifies cells
      ensures last < 2 && Population(last) == Generation(old(Population(u)), w, h, n)
    {
      hide NextGeneration, Population;
      last := u;
      for generation := 0 to n
        invariant last < 2 && Population(last) == Generation(old(Population(u)), w, h, generation)
      {
        last := Advance(last);
      }
    }

    /** The state of a cell inside the universe. */
    method InnerCell(u: nat, x: int, y: int) returns (cell: nat)
      requires Valid() && u < 2 && 0 <= x < w && 0 <= y < h
      ensures cell == if (x, y) in Population(u) then 1 else 0
    {
      hide AliveAt, Population;
      cell := GetCell(u, x, y);
      AliveInRange(Population(u), w, h, x, y);
    }

    method PopCount(u: nat) returns (cnt: nat)
      requires Valid() && u < 2
      ensures cnt == |Population(u)|
    {
      hide Population, CountOf, Inside;
      ghost var alive := Population(u);
      PopulationRange(u);
      CountedAll(alive, w, h);
      cnt := 0;
      for x := 0 to w
        invariant Population(u) == alive
        invariant cnt == CountOf(alive, x, 0)
      {
        for y := 0 to h
          invariant Population(u) == alive
          invariant cnt == CountOf(alive, x, y)
        {
          var cell := InnerCell(u, x, y);
          CountedNext(alive, x, y);
          cnt := cnt + cell;
        }
        CountedColumn(alive, x, w, h);
      }
    }
  }

  ghost predicate Inside(alive: set<Cell>, w: nat, h: nat) {
    forall c :: c in alive ==> 0 <= c.0 < w && 0 <= c.1 < h
  }

  /** The cells of `alive` left of column `x`, or in it above row `y`. */
  ghost function Counted(alive: set<Cell>, x: int, y: int): set<Cell> {
    set c | c in alive && (c.0 < x || (c.0 == x && c.1 < y))
  }

  ghost function CountOf(alive: set<Cell>, x: int, y: int): nat {
    |Counted(alive, x, y)|
  }

  lemma CountedNext(alive: set<Cell>, x: int, y: int)
    ensures CountOf(alive, x, y + 1) == CountOf(alive, x, y) + if (x, y) in alive then 1 else 0
  {
    var before, after := Counted(alive, x, y), Counted(alive, x, y + 1);
    assert after == if (x, y) in alive then before + {(x, y)} else before;
  }

  lemma CountedColumn(alive: set<Cell>, x: int, w: nat, h: nat)
    requires Inside(alive, w, h)
    ensures CountOf(alive, x + 1, 0) == CountOf(alive, x, h)
  {
    assert Counted(alive, x + 1, 0) == Counted(alive, x, h);
  }

  lemma CountedAll(alive: set<Cell>, w: nat, h: nat)
    requires Inside(alive, w, h)
    ensures CountOf(alive, 0, 0) == 0 && CountOf(alive, w, 0) == |alive|
  {
    assert Counted(alive, 0, 0) == {} && Counted(alive, w, 0) == alive;
  }

  lemma NoDirections(alive: set<Cell>, w: nat, h: nat, x: int, y: int)
    requires w > 0 && h > 0
    ensures Neighbours(alive, w, h, x, y, {}) == 0
  {}

  lemma AliveOnTorus(alive: set<Cell>, w: nat, h: nat, x: int, y: int)
    requires w > 0 && h > 0
    ensures AliveAt(alive, w, h, x, y) <==> (x % w, y % h) in alive
  {}

  // ---- the rule, by its eight neighbours

  /** One for a living cell, coordinates taken modulo the size of the torus. */
  function One(alive: set<Cell>, w: nat, h: nat, x: int, y: int): nat
    requires w > 0 && h > 0
  {
    if (x % w, y % h) in alive then 1 else 0
  }

  lemma EightNeighbours(alive: set<Cell>, w: nat, h: nat, x: int, y: int)
    requires w > 0 && h > 0
    ensures Neighbours(alive, w, h, x, y, DIRECTIONS) ==
            One(alive, w, h, x - 1, y - 1) + One(alive, w, h, x, y - 1) + One(alive, w, h, x + 1, y - 1)
            + One(alive, w, h, x - 1, y) + One(alive, w, h, x + 1, y)
            + One(alive, w, h, x - 1, y + 1) + One(alive, w, h, x, y + 1) + One(alive, w, h, x + 1, y + 1)
  {
    hide Neighbours, AliveAt, One;
    NoDirections(alive, w, h, x, y);
    var d0: set<Cell> := {};
    var d1 := OneMore(alive, w, h, x, y, d0, -1, -1);
    var d2 := OneMore(alive, w, h, x, y, d1, 0, -1);
    var d3 := OneMore(alive, w, h, x, y, d2, 1, -1);
    var d4 := OneMore(alive, w, h, x, y, d3, -1, 0);
    var d5 := OneMore(alive, w, h, x, y, d4, 1, 0);
    var d6 := OneMore(alive, w, h, x, y, d5, -1, 1);
    var d7 := OneMore(alive, w, h, x, y, d6, 0, 1);
    var d8 := OneMore(alive, w, h, x, y, d7, 1, 1);
    AllDirections();
  }

  lemma OneMore(alive: set<Cell>, w: nat, h: nat, x: int, y: int, ds: set<Cell>, dx: int, dy: int)
    returns (all: set<Cell>)
    requires w > 0 && h > 0 && (dx, dy) !in ds
    ensures all == ds + {(dx, dy)}
    ensures Neighbours(alive, w, h, x, y, all) == Neighbours(alive, w, h, x, y, ds) + One(alive, w, h, x + dx, y + dy)
  {
    hide Neighbours;
    OneMoreDirection(alive, w, h, x, y, ds, (dx, dy));
    AliveOnTorus(alive, w, h, x + dx, y + dy);
    all := ds + {(dx, dy)};
  }

  /** A cell lives in the next generation with three living neighbours, or with two if it lives already. */
  lemma NextGenerationRule(alive: set<Cell>, w: nat, h: nat, x: int, y: int)
    requires w > 0 && h > 0
    ensures (x, y) in NextGeneration(alive, w, h) <==>
            && 0 <= x < w && 0 <= y < h
            && var n := One(alive, w, h, x - 1, y - 1) + One(alive, w, h, x, y - 1) + One(alive, w, h, x + 1, y - 1)
                        + One(alive, w, h, x - 1, y) + One(alive, w, h, x + 1, y)
                        + One(alive, w, h, x - 1, y + 1) + One(alive, w, h, x, y + 1) + One(alive, w, h, x + 1, y + 1);
               n == 3 || (n == 2 && (x, y) in alive)
  {
    hide Neighbours, One;
    EightNeighbours(alive, w, h, x, y);
  }

  /** A blinker that lies across an edge of the program's 160 times 40 cells turns upright. */
  lemma BlinkerAcrossEdge()
    ensures NextGeneration({(159, 4), (0, 4), (1, 4)}, 160, 40) == {(0, 3), (0, 4), (0, 5)}
  {
    hide NextGeneration;
    var alive, upright: set<Cell> := {(159, 4), (0, 4), (1, 4)}, {(0, 3), (0, 4), (0, 5)};
    forall c: Cell
      ensures c in NextGeneration(alive, 160, 40) <==> c in upright
    {
      NextGenerationRule(alive, 160, 40, c.0, c.1);
    }
  }

  // ---- the torus has no edges

  /** The cells moved by (dx, dy) on the torus. */
  function Shifted(alive: set<Cell>, w: nat, h: nat, dx: int, dy: int): set<Cell>
    requires w > 0 && h > 0
  {
    set c | c in alive :: (Torus(c.0 + dx, w), Torus(c.1 + dy, h))
  }

  lemma TorusAdd(x: int, d: int, n: nat)
    requires n > 0
    ensures Torus(Torus(x, n) + d, n) == Torus(x + d, n)
    ensures 0 <= Torus(x, n) < n
  {
    var q, r := x / n, x % n;
    assert x + d == n * q + (r + d);
    ModMultiple(r + d, q, n);
  }

  lemma ModMultiple(x: int, q: int, n: nat)
    requires n > 0
    ensures (n * q + x) % n == x % n
  {
    var k, r := x / n, x % n;
    assert n * q + x == n * (q + k) + r;
    DivModUnique(n * q + x, n, q + k, r);
  }

  lemma TorusInside(x: int, n: nat)
    requires 0 <= x < n
    ensures Torus(x, n) == x
  {
    TorusNearby(x, n);
  }

  /** A cell is alive in the moved population iff the cell it comes from is alive. */
  lemma ShiftedAlive(alive: set<Cell>, w: nat, h: nat, dx: int, dy: int, x: int, y: int)
    requires w > 0 && h > 0 && Inside(alive, w, h)
    ensures AliveAt(Shifted(alive, w, h, dx, dy), w, h, x + dx, y + dy) == AliveAt(alive, w, h, x, y)
  {
    hide Torus;
    var here: Cell := (Torus(x + dx, w), Torus(y + dy, h));
    TorusAdd(x, dx, w);
    TorusAdd(y, dy, h);
    if (Torus(x, w), Torus(y, h)) in alive {
      var c: Cell := (Torus(x, w), Torus(y, h));
      assert here == (Torus(c.0 + dx, w), Torus(c.1 + dy, h));
    }
    if here in Shifted(alive, w, h, dx, dy) {
      var c :| c in alive && here == (Torus(c.0 + dx, w), Torus(c.1 + dy, h));
      TorusCancel(c.0, x, dx, w);
      TorusCancel(c.1, y, dy, h);
    }
  }

  lemma TorusCancel(a: int, b: int, d: int, n: nat)
    requires 0 <= a < n && Torus(a + d, n) == Torus(b + d, n)
    ensures a == Torus(b, n)
  {
    hide Torus;
    TorusAdd(a + d, -d, n);
    TorusAdd(b + d, -d, n);
    TorusInside(a, n);
  }

  lemma ShiftedNeighbours(alive: set<Cell>, w: nat, h: nat, dx: int, dy: int, x: int, y: int, X: int, Y: int)
    requires w > 0 && h > 0 && Inside(alive, w, h) && X == Torus(x + dx, w) && Y == Torus(y + dy, h)
    ensures var moved := Shifted(alive, w, h, dx, dy);
            Living(moved, w, h, X, Y, DIRECTIONS) == Living(alive, w, h, x, y, DIRECTIONS)
  {
    hide Torus, Shifted;
    var moved := Shifted(alive, w, h, dx, dy);
    forall d | d in DIRECTIONS
      ensures AliveAt(moved, w, h, X + d.0, Y + d.1) == AliveAt(alive, w, h, x + d.0, y + d.1)
    {
      TorusAdd(x + dx, d.0, w);
      TorusAdd(y + dy, d.1, h);
      ShiftedAlive(alive, w, h, dx, dy, x + d.0, y + d.1);
      assert x + dx + d.0 == x + d.0 + dx && y + dy + d.1 == y + d.1 + dy;
    }
  }

  /** The next generation of a moved population is the next generation, moved: no place is special. */
  lemma NextGenerationMoves(alive: set<Cell>, w: nat, h: nat, dx: int, dy: int)
    requires w > 0 && h > 0 && Inside(alive, w, h)
    ensures NextGeneration(Shifted(alive, w, h, dx, dy), w, h) == Shifted(NextGeneration(alive, w, h), w, h, dx, dy)
  {
    hide Torus, AliveAt, Neighbours, LivesOn;
    var moved, next := Shifted(alive, w, h, dx, dy), NextGeneration(alive, w, h);
    forall c: Cell
      ensures c in NextGeneration(moved, w, h) <==> c in Shifted(next, w, h, dx, dy)
    {
      if 0 <= c.0 < w && 0 <= c.1 < h {
        var x, y := Torus(c.0 - dx, w), Torus(c.1 - dy, h);
        TorusAdd(c.0 - dx, dx, w);
        TorusAdd(c.1 - dy, dy, h);
        TorusInside(c.0, w);
        TorusInside(c.1, h);
        MovedCell(alive, w, h, dx, dy, x, y, c);
        if c in Shifted(next, w, h, dx, dy) {
          var d :| d in next && c == (Torus(d.0 + dx, w), Torus(d.1 + dy, h));
          TorusCancel(d.0, x, dx, w);
          TorusCancel(d.1, y, dy, h);
          TorusInside(x, w);
          TorusInside(y, h);
        }
      } else if c in Shifted(next, w, h, dx, dy) {
        var d :| d in next && c == (Torus(d.0 + dx, w), Torus(d.1 + dy, h));
        TorusAdd(d.0 + dx, 0, w);
        TorusAdd(d.1 + dy, 0, h);
      }
    }
  }

  lemma MovedCell(alive: set<Cell>, w: nat, h: nat, dx: int, dy: int, x: int, y: int, c: Cell)
    requires w > 0 && h > 0 && Inside(alive, w, h) && 0 <= x < w && 0 <= y < h
    requires c == (Torus(x + dx, w), Torus(y + dy, h))
    ensures LivesOn(Shifted(alive, w, h, dx, dy), w, h, c.0, c.1) == LivesOn(alive, w, h, x, y)
  {
    hide Torus, Living, Shifted;
    ShiftedNeighbours(alive, w, h, dx, dy, x, y, c.0, c.1);
    var moved := Shifted(alive, w, h, dx, dy);
    ShiftedAlive(alive, w, h, dx, dy, x, y);
    ShiftInside(alive, w, h, dx, dy);
    TorusAdd(x + dx, 0, w);
    TorusAdd(y + dy, 0, h);
    AliveInRange(alive, w, h, x, y);
    AliveInRange(moved, w, h, c.0, c.1);
    assert AliveAt(moved, w, h, x + dx, y + dy) == (c in moved);
  }

  lemma ShiftInside(alive: set<Cell>, w: nat, h: nat, dx: int, dy: int)
    requires w > 0 && h > 0
    ensures Inside(Shifted(alive, w, h, dx, dy), w, h)
  {}

  lemma AliveInRange(alive: set<Cell>, w: nat, h: nat, x: int, y: int)
    requires 0 <= x < w && 0 <= y < h
    ensures AliveAt(alive, w, h, x, y) == ((x, y) in alive)
  {
    hide Torus;
    TorusNearby(x, w);
    TorusNearby(y, h);
  }

  lemma Rule(alive: set<Cell>, w: nat, h: nat, x: int, y: int)
    requires w > 0 && h > 0
    ensures LivesOn(alive, w, h, x, y) ==
            (var n := Neighbours(alive, w, h, x, y, DIRECTIONS); n == 3 || (n == 2 && (x, y) in alive))
  {
    hide Neighbours;
  }
}
