/** Pure boards and Conway's rule: the value-level meaning of one generation
    of the Life grid, of clearing, randomising and painting it, and the
    classic patterns (dead grid, block, blinker). */
module LifeRules {

  /** A board is row-major: b[y][x] is the liveness of the cell in row y, column x. */
  type Board = seq<seq<bool>>

  /** b has h rows of w cells each. */
  predicate IsGrid(b: Board, h: int, w: int) {
    |b| == h && forall y | 0 <= y < h :: |b[y]| == w
  }

  /** Cell (y, x) lies strictly inside the one-cell border ring of an h-by-w grid. */
  predicate Interior(y: int, x: int, h: int, w: int) {
    1 <= y < h - 1 && 1 <= x < w - 1
  }

  predicate InBounds(y: int, x: int, h: int, w: int) {
    0 <= y < h && 0 <= x < w
  }

  function Bit(v: bool): nat {
    if v then 1 else 0
  }

  /** Number of live cells among the eight Moore neighbours of interior cell (y, x). */
  function Neighbours(b: Board, h: int, w: int, y: int, x: int): (n: nat)
    requires IsGrid(b, h, w) && Interior(y, x, h, w)
    ensures n <= 8
  {
    Bit(b[y - 1][x - 1]) + Bit(b[y - 1][x]) + Bit(b[y - 1][x + 1]) +
    Bit(b[y][x - 1])                        + Bit(b[y][x + 1]) +
    Bit(b[y + 1][x - 1]) + Bit(b[y + 1][x]) + Bit(b[y + 1][x + 1])
  }

  /** What offset (a, b) of the 3-by-3 window around (y, x) adds to the count:
      nothing for the centre, one for a live neighbour. */
  function Contribution(g: Board, h: int, w: int, y: int, x: int, a: int, b: int): nat
    requires IsGrid(g, h, w) && Interior(y, x, h, w) && -1 <= a <= 1 && -1 <= b <= 1
  {
    if a == 0 && b == 0 then 0 else Bit(g[y + a][x + b])
  }

  /** Live neighbours among the window offsets visited before (a, b), when row
      offset a runs outer and column offset b inner, both from -1 to 1: the
      partial count of the counting loop. */
  function Scanned(g: Board, h: int, w: int, y: int, x: int, a: int, b: int): nat
    requires IsGrid(g, h, w) && Interior(y, x, h, w) && -1 <= a <= 2 && -1 <= b <= 2
    requires a == 2 ==> b == -1
    decreases 4 * (a + 1) + (b + 1)
  {
    if b == -1 then (if a == -1 then 0 else Scanned(g, h, w, y, x, a - 1, 2))
    else Scanned(g, h, w, y, x, a, b - 1) + Contribution(g, h, w, y, x, a, b - 1)
  }

  /** Visiting the whole window counts exactly the Moore neighbours. */
  lemma ScanComplete(g: Board, h: int, w: int, y: int, x: int)
    requires IsGrid(g, h, w) && Interior(y, x, h, w)
    ensures Scanned(g, h, w, y, x, 2, -1) == Neighbours(g, h, w, y, x)
  {
  }

  /** The apply pass on one cell: the three sequential tests, in their order
      (under-population, over-population, birth), on neighbour count n. */
  function Apply(live: bool, n: int): (r: bool)
    ensures r <==> (live && (n == 2 || n == 3)) || (!live && n == 3)
  {
    var afterUnder := if live && n < 2 then false else live;
    var afterOver := if afterUnder && n > 3 then false else afterUnder;
    if !afterOver && n == 3 then true else afterOver
  }

  /** The neighbour count each cell holds when the apply pass reads it: the
      fresh count for interior cells, and 0 for the border ring, whose count
      the counting pass never writes. */
  function CountSeen(b: Board, h: int, w: int, y: int, x: int): (n: nat)
    requires IsGrid(b, h, w) && InBounds(y, x, h, w)
    ensures n <= 8
    ensures !Interior(y, x, h, w) ==> n == 0
  {
    if Interior(y, x, h, w) then Neighbours(b, h, w, y, x) else 0
  }

  /** One generation. Interior cells follow Conway's rule on counts taken from
      the board before the step; every border cell ends dead. */
  function Step(b: Board, h: nat, w: nat): (r: Board)
    requires IsGrid(b, h, w)
    ensures IsGrid(r, h, w)
    ensures forall y, x | Interior(y, x, h, w) ::
              r[y][x] <==> (b[y][x] && (Neighbours(b, h, w, y, x) == 2 || Neighbours(b, h, w, y, x) == 3))
                           || (!b[y][x] && Neighbours(b, h, w, y, x) == 3)
    ensures forall y, x | InBounds(y, x, h, w) && !Interior(y, x, h, w) :: !r[y][x]
  {
    seq(h, y requires 0 <= y < h =>
      seq(w, x requires 0 <= x < w => Apply(b[y][x], CountSeen(b, h, w, y, x))))
  }

  /** The board with every interior cell dead and the border ring kept. */
  function Cleared(b: Board, h: nat, w: nat): (r: Board)
    requires IsGrid(b, h, w)
    ensures IsGrid(r, h, w)
    ensures forall y, x | InBounds(y, x, h, w) ::
              r[y][x] == (if Interior(y, x, h, w) then false else b[y][x])
  {
    seq(h, y requires 0 <= y < h =>
      seq(w, x requires 0 <= x < w => if Interior(y, x, h, w) then false else b[y][x]))
  }

  /** The board with each interior cell set to the coin drawn for it and the border ring kept. */
  function Randomised(b: Board, h: nat, w: nat, coin: (int, int) -> bool): (r: Board)
    requires IsGrid(b, h, w)
    ensures IsGrid(r, h, w)
    ensures forall y, x | InBounds(y, x, h, w) ::
              r[y][x] == (if Interior(y, x, h, w) then coin(y, x) else b[y][x])
  {
    seq(h, y requires 0 <= y < h =>
      seq(w, x requires 0 <= x < w => if Interior(y, x, h, w) then coin(y, x) else b[y][x]))
  }

  /** A cell coordinate as the grid hands it out: column x, row y. */
  datatype Point = Point(x: int, y: int)

  /** The board with every cell whose coordinate is in s set to v, all others kept. */
  function Painted(b: Board, h: nat, w: nat, s: set<Point>, v: bool): (r: Board)
    requires IsGrid(b, h, w)
    ensures IsGrid(r, h, w)
    ensures forall y, x | InBounds(y, x, h, w) ::
              r[y][x] == (if Point(x, y) in s then v else b[y][x])
  {
    seq(h, y requires 0 <= y < h =>
      seq(w, x requires 0 <= x < w => if Point(x, y) in s then v else b[y][x]))
  }

  /** Two boards of the same shape that agree cell by cell are equal. */
  lemma SameBoard(a: Board, b: Board, h: int, w: int)
    requires IsGrid(a, h, w) && IsGrid(b, h, w)
    requires forall y, x | InBounds(y, x, h, w) :: a[y][x] == b[y][x]
    ensures a == b
  {
    forall y | 0 <= y < h ensures a[y] == b[y] {
      assert forall x | 0 <= x < w :: a[y][x] == b[y][x];
    }
  }

  // ---------------------------------------------------------------------------
  // The border ring

  ghost predicate BorderDead(b: Board, h: int, w: int)
    requires IsGrid(b, h, w)
  {
    forall y, x | InBounds(y, x, h, w) && !Interior(y, x, h, w) :: !b[y][x]
  }

  ghost predicate InsideInterior(s: set<Point>, h: int, w: int) {
    forall p | p in s :: Interior(p.y, p.x, h, w)
  }

  /** Stepping, clearing, randomising and painting interior cells all keep a
      dead border dead, whatever the board. Only loading can revive it. */
  lemma BorderStaysDead(b: Board, h: nat, w: nat, coin: (int, int) -> bool, s: set<Point>, v: bool)
    requires IsGrid(b, h, w)
    ensures BorderDead(Step(b, h, w), h, w)
    ensures BorderDead(b, h, w) ==> BorderDead(Cleared(b, h, w), h, w)
    ensures BorderDead(b, h, w) ==> BorderDead(Randomised(b, h, w, coin), h, w)
    ensures BorderDead(b, h, w) && InsideInterior(s, h, w) ==> BorderDead(Painted(b, h, w, s, v), h, w)
  {
  }

  // ---------------------------------------------------------------------------
  // Patterns

  /** The h-by-w board whose live cells are exactly the (row, column) pairs in s. */
  function Pattern(h: nat, w: nat, s: set<(int, int)>): (r: Board)
    ensures IsGrid(r, h, w)
    ensures forall y, x | InBounds(y, x, h, w) :: r[y][x] <==> (y, x) in s
  {
    seq(h, y requires 0 <= y < h => seq(w, x requires 0 <= x < w => (y, x) in s))
  }

  ghost predicate AllDead(b: Board, h: int, w: int)
    requires IsGrid(b, h, w)
  {
    forall y, x | InBounds(y, x, h, w) :: !b[y][x]
  }

  /** A grid with no live cell stays without one. */
  lemma DeadGridStaysDead(b: Board, h: nat, w: nat)
    requires IsGrid(b, h, w) && AllDead(b, h, w)
    ensures Step(b, h, w) == b
  {
    var r := Step(b, h, w);
    forall y, x | InBounds(y, x, h, w) ensures r[y][x] == b[y][x] {
      if Interior(y, x, h, w) {
        assert Neighbours(b, h, w, y, x) == 0;
      }
    }
    SameBoard(r, b, h, w);
  }

  /** Live members of s among the eight Moore neighbours of (y, x). */
  function PatternNeighbours(s: set<(int, int)>, y: int, x: int): nat {
    Bit((y - 1, x - 1) in s) + Bit((y - 1, x) in s) + Bit((y - 1, x + 1) in s) +
    Bit((y, x - 1) in s)                            + Bit((y, x + 1) in s) +
    Bit((y + 1, x - 1) in s) + Bit((y + 1, x) in s) + Bit((y + 1, x + 1) in s)
  }

  lemma PatternCount(h: nat, w: nat, s: set<(int, int)>, y: int, x: int)
    requires Interior(y, x, h, w)
    ensures Neighbours(Pattern(h, w, s), h, w, y, x) == PatternNeighbours(s, y, x)
  {
  }

  /** Conway's rule for cell (y, x) of the pattern s, counted on s itself. */
  predicate LivesOn(s: set<(int, int)>, y: int, x: int) {
    var n := PatternNeighbours(s, y, x);
    ((y, x) in s && (n == 2 || n == 3)) || ((y, x) !in s && n == 3)
  }

  /** If t is what Conway's rule makes of s on the interior and t avoids the
      border ring, then one step takes the pattern s to the pattern t. */
  lemma PatternStep(h: nat, w: nat, s: set<(int, int)>, t: set<(int, int)>)
    requires forall y, x | InBounds(y, x, h, w) && !Interior(y, x, h, w) :: (y, x) !in t
    requires forall y, x | Interior(y, x, h, w) :: (y, x) in t <==> LivesOn(s, y, x)
    ensures Step(Pattern(h, w, s), h, w) == Pattern(h, w, t)
  {
    var b, r, e := Pattern(h, w, s), Step(Pattern(h, w, s), h, w), Pattern(h, w, t);
    forall y, x | InBounds(y, x, h, w) ensures r[y][x] == e[y][x] {
      if Interior(y, x, h, w) {
        PatternCount(h, w, s, y, x);
      }
    }
    SameBoard(r, e, h, w);
  }

  function Block(y0: int, x0: int): (r: set<(int, int)>)
    ensures forall y, x :: (y, x) in r <==> y0 <= y <= y0 + 1 && x0 <= x <= x0 + 1
  {
    {(y0, x0), (y0, x0 + 1), (y0 + 1, x0), (y0 + 1, x0 + 1)}
  }

  lemma BlockCell(y0: int, x0: int, y: int, x: int)
    ensures (y, x) in Block(y0, x0) <==> LivesOn(Block(y0, x0), y, x)
  {
    var n := PatternNeighbours(Block(y0, x0), y, x);
    if (y, x) in Block(y0, x0) {
      assert n == 3;
    } else {
      assert n <= 2;
    }
  }

  /** A 2-by-2 block anywhere in the interior is a still life. */
  lemma BlockIsStillLife(h: nat, w: nat, y0: int, x0: int)
    requires Interior(y0, x0, h, w) && Interior(y0 + 1, x0 + 1, h, w)
    ensures Step(Pattern(h, w, Block(y0, x0)), h, w) == Pattern(h, w, Block(y0, x0))
  {
    forall y, x | Interior(y, x, h, w) ensures (y, x) in Block(y0, x0) <==> LivesOn(Block(y0, x0), y, x) {
      BlockCell(y0, x0, y, x);
    }
    assert forall y, x | InBounds(y, x, h, w) && !Interior(y, x, h, w) :: (y, x) !in Block(y0, x0);
    PatternStep(h, w, Block(y0, x0), Block(y0, x0));
  }

  function HorizontalBlinker(y0: int, x0: int): (r: set<(int, int)>)
    ensures forall y, x :: (y, x) in r <==> y == y0 && x0 - 1 <= x <= x0 + 1
  {
    {(y0, x0 - 1), (y0, x0), (y0, x0 + 1)}
  }

  function VerticalBlinker(y0: int, x0: int): (r: set<(int, int)>)
    ensures forall y, x :: (y, x) in r <==> y0 - 1 <= y <= y0 + 1 && x == x0
  {
    {(y0 - 1, x0), (y0, x0), (y0 + 1, x0)}
  }

  lemma HorizontalCell(y0: int, x0: int, y: int, x: int)
    ensures (y, x) in VerticalBlinker(y0, x0) <==> LivesOn(HorizontalBlinker(y0, x0), y, x)
  {
    var n := PatternNeighbours(HorizontalBlinker(y0, x0), y, x);
    if (y, x) == (y0, x0) {
      assert n == 2;
    } else if (y, x) == (y0 - 1, x0) || (y, x) == (y0 + 1, x0) {
      assert n == 3;
    } else if (y, x) in HorizontalBlinker(y0, x0) {
      assert n == 1;
    } else {
      assert n != 3;
    }
  }

  lemma VerticalCell(y0: int, x0: int, y: int, x: int)
    ensures (y, x) in HorizontalBlinker(y0, x0) <==> LivesOn(VerticalBlinker(y0, x0), y, x)
  {
    var n := PatternNeighbours(VerticalBlinker(y0, x0), y, x);
    if (y, x) == (y0, x0) {
      assert n == 2;
    } else if (y, x) == (y0, x0 - 1) || (y, x) == (y0, x0 + 1) {
      assert n == 3;
    } else if (y, x) in VerticalBlinker(y0, x0) {
      assert n == 1;
    } else {
      assert n != 3;
    }
  }

  /** Around (y0, x0), a horizontal blinker becomes a vertical one. */
  lemma HorizontalToVertical(h: nat, w: nat, y0: int, x0: int)
    requires 2 <= y0 < h - 2 && 2 <= x0 < w - 2
    ensures Step(Pattern(h, w, HorizontalBlinker(y0, x0)), h, w) == Pattern(h, w, VerticalBlinker(y0, x0))
  {
    forall y, x | Interior(y, x, h, w)
      ensures (y, x) in VerticalBlinker(y0, x0) <==> LivesOn(HorizontalBlinker(y0, x0), y, x)
    {
      HorizontalCell(y0, x0, y, x);
    }
    PatternStep(h, w, HorizontalBlinker(y0, x0), VerticalBlinker(y0, x0));
  }

  /** Around (y0, x0), a vertical blinker becomes a horizontal one. */
  lemma VerticalToHorizontal(h: nat, w: nat, y0: int, x0: int)
    requires 2 <= y0 < h - 2 && 2 <= x0 < w - 2
    ensures Step(Pattern(h, w, VerticalBlinker(y0, x0)), h, w) == Pattern(h, w, HorizontalBlinker(y0, x0))
  {
    forall y, x | Interior(y, x, h, w)
      ensures (y, x) in HorizontalBlinker(y0, x0) <==> LivesOn(VerticalBlinker(y0, x0), y, x)
    {
      VerticalCell(y0, x0, y, x);
    }
    PatternStep(h, w, VerticalBlinker(y0, x0), HorizontalBlinker(y0, x0));
  }

  /** The blinker has period exactly 2: one step changes it, two steps restore it. */
  lemma BlinkerHasPeriodTwo(h: nat, w: nat, y0: int, x0: int)
    requires 2 <= y0 < h - 2 && 2 <= x0 < w - 2
    ensures Step(Pattern(h, w, HorizontalBlinker(y0, x0)), h, w) != Pattern(h, w, HorizontalBlinker(y0, x0))
    ensures Step(Step(Pattern(h, w, HorizontalBlinker(y0, x0)), h, w), h, w) == Pattern(h, w, HorizontalBlinker(y0, x0))
  {
    var b := Pattern(h, w, HorizontalBlinker(y0, x0));
    var v := Pattern(h, w, VerticalBlinker(y0, x0));
    HorizontalToVertical(h, w, y0, x0);
    VerticalToHorizontal(h, w, y0, x0);
    assert (y0, x0 - 1) !in VerticalBlinker(y0, x0);
    assert !v[y0][x0 - 1] && b[y0][x0 - 1];
  }
}
