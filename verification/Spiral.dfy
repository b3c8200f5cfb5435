/** The numbering of the integer plane that spreads co-located peers: cell 1 is the origin and
    the numbers run outwards, counter-clockwise, ring by ring.

    `Walk` says which cell has number n by walking there one turn rule at a time, `Index` is an
    explicit inverse, and `Spiral` is the closed form, proved to land where the walk does. */
module SpiralPlacement {

  datatype Cell = Cell(x: int, y: int)

  function Abs(a: int): nat { if a < 0 then -a else a }

  /** The ring of a cell: its Chebyshev distance from the origin. */
  function Radius(p: Cell): nat {
    if Abs(p.x) < Abs(p.y) then Abs(p.y) else Abs(p.x)
  }

  /** Number of cells in the square of radius r. */
  function Area(r: nat): nat { (2 * r + 1) * (2 * r + 1) }

  predicate Adjacent(p: Cell, q: Cell) {
    Abs(p.x - q.x) + Abs(p.y - q.y) == 1
  }

  /** One step of the walk: along the bottom side to the right and out into the next ring, then
      up the right side, left along the top and down the left side. */
  function Next(p: Cell): Cell {
    var k: int := Radius(p);
    if p.y == -k then Cell(p.x + 1, p.y)
    else if p.x == k && p.y < k then Cell(p.x, p.y + 1)
    else if p.y == k && p.x > -k then Cell(p.x - 1, p.y)
    else Cell(p.x, p.y - 1)
  }

  /** The n-th cell of the walk, counted from 1. */
  function Walk(n: nat): Cell
    requires n >= 1
  {
    if n == 1 then Cell(0, 0) else Next(Walk(n - 1))
  }

  /** The number of a cell. */
  function Index(p: Cell): int {
    var k: int := Radius(p);
    if p.y == -k then Area(k) - (k - p.x)
    else if p.x == -k then Area(k) - 2 * k - (p.y + k)
    else if p.y == k then Area(k) - 4 * k - (p.x + k)
    else Area(k) - 6 * k - (k - p.y)
  }

  /** Least radius, from k up, whose square has at least n cells. */
  function RingFrom(n: nat, k: nat): nat
    decreases n - Area(k)
  {
    if n <= Area(k) then k else
      assert Area(k) < Area(k + 1);
      RingFrom(n, k + 1)
  }

  /** The ring that cell n lies on; the source's ceil((sqrt(n) - 1) / 2), exactly. */
  function Ring(n: nat): nat { RingFrom(n, 0) }

  lemma AreaMonotone(a: nat, b: nat)
    requires a < b
    ensures Area(a) < Area(b)
    ensures Area(a) <= Area(b - 1)
  {
    assert Area(b) - Area(a) == 4 * (b - a) * (b + a + 1);
    assert Area(b - 1) - Area(a) == 4 * (b - 1 - a) * (b + a);
  }

  lemma {:induction false} RingFromLeast(n: nat, k: nat)
    requires k == 0 || Area(k - 1) < n
    ensures n <= Area(RingFrom(n, k))
    ensures RingFrom(n, k) == 0 || Area(RingFrom(n, k) - 1) < n
    decreases n - Area(k)
  {
    if Area(k) < n {
      AreaMonotone(k, k + 1);
      RingFromLeast(n, k + 1);
    }
  }

  /** Ring(n) is the one radius whose ring holds number n. */
  lemma RingUnique(n: nat, k: nat)
    ensures k == Ring(n) <==> n <= Area(k) && (k == 0 || Area(k - 1) < n)
  {
    RingFromLeast(n, 0);
    var r := Ring(n);
    if k < r { AreaMonotone(k, r); }
    if r < k { AreaMonotone(r, k); }
  }

  /** The number of a cell lies in its ring's block of numbers. */
  lemma IndexInRing(p: Cell)
    ensures 1 <= Index(p) <= Area(Radius(p))
    ensures Radius(p) > 0 ==> Area(Radius(p) - 1) < Index(p)
    ensures Ring(Index(p)) == Radius(p)
  {
    var k := Radius(p);
    if k > 0 { assert Area(k) == Area(k - 1) + 8 * k; }
    RingUnique(Index(p), k);
  }

  lemma IndexInjective(p: Cell, q: Cell)
    requires Index(p) == Index(q)
    ensures p == q
  {
    IndexInRing(p);
    IndexInRing(q);
  }

  lemma IndexNext(p: Cell)
    ensures Index(Next(p)) == Index(p) + 1
  {
    var k := Radius(p);
    assert Area(k + 1) == Area(k) + 8 * (k + 1);
  }

  /** Numbering the n-th cell of the walk gives n back. */
  lemma {:induction false} IndexOfWalk(n: nat)
    requires n >= 1
    ensures Index(Walk(n)) == n
  {
    if n > 1 {
      IndexOfWalk(n - 1);
      IndexNext(Walk(n - 1));
    }
  }

  /** Every cell of the plane is reached, at its own number. */
  lemma WalkOfIndex(p: Cell)
    ensures Index(p) >= 1
    ensures Walk(Index(p)) == p
  {
    IndexInRing(p);
    IndexOfWalk(Index(p));
    IndexInjective(Walk(Index(p)), p);
  }

  lemma WalkInjective(i: nat, j: nat)
    requires 1 <= i && 1 <= j
    ensures Walk(i) == Walk(j) <==> i == j
  {
    IndexOfWalk(i);
    IndexOfWalk(j);
  }

  /** Ring k holds exactly the numbers in (Area(k-1), Area(k)]. */
  lemma WalkRadius(n: nat, k: nat)
    requires n >= 1
    ensures Radius(Walk(n)) == Ring(n)
    ensures Radius(Walk(n)) == k <==> n <= Area(k) && (k == 0 || Area(k - 1) < n)
    ensures Radius(Walk(n)) <= k <==> n <= Area(k)
  {
    IndexOfWalk(n);
    IndexInRing(Walk(n));
    RingUnique(n, k);
    RingUnique(n, Ring(n));
    if k < Ring(n) { AreaMonotone(k, Ring(n)); }
    if Ring(n) < k { AreaMonotone(Ring(n), k); }
  }

  /** Consecutive numbers are always 4-neighbours, across corners and ring boundaries too. */
  lemma WalkConnected(n: nat)
    requires n >= 1
    ensures Adjacent(Walk(n), Walk(n + 1))
  {
  }

  /** The closed form. The counter it is called with starts at 1; number 0 is defined but is not
      a cell of its own (`ZeroIsNotACell`). */
  method Spiral(n: nat) returns (cell: Cell)
    ensures n >= 1 ==> cell == Walk(n)
    ensures n == 0 ==> cell == Cell(0, -1)
  {
    var k := Ring(n);
    var t := 2 * k + 1;
    var m := t * t;
    t := t - 1;
    RingUnique(n, k);
    if k > 0 { assert m == Area(k - 1) + 8 * k; }

    if n >= m - t {
      cell := Cell(k - (m - n), -k);
    } else {
      m := m - t;
      if n >= m - t {
        cell := Cell(-k, -k + (m - n));
      } else {
        m := m - t;
        if n >= m - t {
          cell := Cell(-k + (m - n), k);
        } else {
          cell := Cell(k, k - (m - n - t));
        }
      }
    }
    if n >= 1 {
      assert Radius(cell) == k;
      assert Index(cell) == n;
      WalkOfIndex(cell);
    }
  }

  /** Why the counter is bumped before it is used: number 0 would share cell 8. */
  lemma ZeroIsNotACell()
    ensures Walk(8) == Cell(0, -1)
  {
    WalkOfIndex(Cell(0, -1));
  }

  // ----- packing -----

  /** The offsets handed out by the first c calls on one coordinate. */
  ghost function Placed(c: nat): set<Cell> {
    if c == 0 then {} else Placed(c - 1) + {Walk(c)}
  }

  lemma {:induction false} InPlaced(p: Cell, c: nat)
    ensures p in Placed(c) <==> Index(p) <= c
  {
    IndexInRing(p);
    if c > 0 {
      InPlaced(p, c - 1);
      WalkOfIndex(p);
      IndexOfWalk(c);
    }
  }

  /** All cells within radius r. */
  ghost function Square(r: nat): set<Cell> {
    var lo: int, hi: int := 0 - r, r;
    set x: int, y: int | lo <= x <= hi && lo <= y <= hi :: Cell(x, y)
  }

  lemma InSquare(p: Cell, r: nat)
    ensures p in Square(r) <==> Radius(p) <= r
  {
    if Radius(p) <= r { assert p == Cell(p.x, p.y); }
  }

  lemma {:induction false} PlacedSize(c: nat)
    ensures |Placed(c)| == c
  {
    if c > 0 {
      PlacedSize(c - 1);
      InPlaced(Walk(c), c - 1);
      IndexOfWalk(c);
    }
  }

  lemma PlacedWithin(c: nat, r: nat)
    ensures c <= Area(r) ==> Placed(c) <= Square(r)
    ensures Area(r) <= c ==> Square(r) <= Placed(c)
  {
    forall p: Cell
      ensures c <= Area(r) && p in Placed(c) ==> p in Square(r)
      ensures Area(r) <= c && p in Square(r) ==> p in Placed(c)
    {
      InSquare(p, r);
      InPlaced(p, c);
      WalkOfIndex(p);
      WalkRadius(Index(p), r);
    }
  }

  /** A full number of rings fills the square exactly. */
  lemma PlacedFillsSquare(r: nat)
    ensures Placed(Area(r)) == Square(r)
    ensures |Square(r)| == Area(r)
  {
    PlacedWithin(Area(r), r);
    PlacedSize(Area(r));
  }

  lemma SubsetSize<T>(a: set<T>, b: set<T>)
    requires a <= b
    ensures |a| <= |b|
  {
    assert b == a + (b - a);
  }

  /** No choice of more than Area(r) distinct offsets fits the square of radius r. */
  lemma SquareHoldsAtMost(offsets: set<Cell>, r: nat)
    requires offsets <= Square(r)
    ensures |offsets| <= Area(r)
  {
    SubsetSize(offsets, Square(r));
    PlacedFillsSquare(r);
  }

  /** Optimal packing. After c calls the c offsets are distinct, they fit the square of radius
      Ring(c), filling it exactly when c == Area(Ring(c)), and no c distinct offsets whatever
      fit a square smaller than Ring(c). */
  lemma OptimalPacking(c: nat, offsets: set<Cell>, r: nat)
    requires |offsets| == c
    ensures |Placed(c)| == c
    ensures Placed(c) <= Square(Ring(c))
    ensures Placed(c) == Square(Ring(c)) <==> c == Area(Ring(c))
    ensures offsets <= Square(r) ==> Ring(c) <= r
  {
    RingUnique(c, Ring(c));
    PlacedSize(c);
    PlacedWithin(c, Ring(c));
    assert Placed(c) == Square(Ring(c)) <==> c == Area(Ring(c)) by { PlacedFillsSquare(Ring(c)); }
    if offsets <= Square(r) {
      SquareHoldsAtMost(offsets, r);
      if r < Ring(c) { AreaMonotone(r, Ring(c)); }
    }
  }

  /** Rings fill one after another: the square below the current ring is already covered. */
  lemma InnerSquareCovered(c: nat)
    requires Ring(c) > 0
    ensures Square(Ring(c) - 1) <= Placed(c)
    ensures |Square(Ring(c) - 1)| < c
  {
    RingUnique(c, Ring(c));
    PlacedWithin(c, Ring(c) - 1);
    PlacedFillsSquare(Ring(c) - 1);
  }
}
