/** The Life grid engine: a fixed height-by-width array of cells, a
    one-generation step in two passes (count the interior, then apply the
    rule everywhere), interior-only clearing and randomising, the mapping
    from a pixel to a cell, play/pause, an update-rate index into a table
    of the factors of 60, and the binary save/load layout. */
module Simulation {
  import opened LifeRules
  import opened Persistence

  /** Updates per second the grid can run at: every factor of 60, in increasing order. */
  const Speeds: seq<int> := [1, 2, 3, 4, 5, 6, 10, 12, 15, 20, 30, 60]

  /** The update-rate index a new grid starts at. */
  const InitialSpeedIndex: int := 8

  /** The table holds exactly the factors of 60, each once, smallest first. */
  lemma SpeedsAreFactorsOfSixty()
    ensures forall i | 0 <= i < |Speeds| :: Speeds[i] > 0 && 60 % Speeds[i] == 0
    ensures forall i, j | 0 <= i < j < |Speeds| :: Speeds[i] < Speeds[j]
    ensures forall d | 1 <= d <= 60 :: (60 % d == 0 <==> d in Speeds)
  {
    forall d | 1 <= d <= 60 ensures 60 % d == 0 <==> d in Speeds {
      if d > 30 {
        assert 60 % d == 0 <==> d == 60;
      } else if d > 20 {
        assert 60 % d == 0 <==> d == 30;
      } else if d > 12 {
        assert 60 % d == 0 <==> d == 15 || d == 20;
      }
    }
  }

  /** The first and last entries of the table are the slowest and fastest rates,
      and a new grid runs at 15 updates per second. */
  lemma SpeedTableEnds()
    ensures |Speeds| == 12 && Speeds[0] == 1 && Speeds[|Speeds| - 1] == 60
    ensures Speeds[InitialSpeedIndex] == 15
    ensures forall i | 0 <= i < |Speeds| :: (Speeds[i] == 1 <==> i == 0) && (Speeds[i] == 60 <==> i == |Speeds| - 1)
  {
    SpeedsAreFactorsOfSixty();
  }

  /** A cell of the grid: whether it is live, and the neighbour count the
      latest count pass stored in it. */
  datatype Cell = Cell(isLive: bool, neighbours: int)

  type Positive = n: int | n > 0 witness 1

  /** Euclidean division of a natural number brackets it between two multiples of d. */
  lemma DivBounds(n: nat, d: Positive)
    ensures 0 <= n / d && (n / d) * d <= n < (n / d + 1) * d
  {
    assert n == (n / d) * d + n % d;
  }

  /** The C# (int) cast of the quotient a / d: division truncated toward zero. */
  function TruncDiv(a: int, d: Positive): (q: int)
    ensures a >= 0 ==> 0 <= q && q * d <= a < (q + 1) * d
    ensures a < 0 ==> q <= 0 && (q - 1) * d < a <= q * d
  {
    DivBounds(if a >= 0 then a else -a, d);
    if a >= 0 then a / d else -((-a) / d)
  }

  /** For a truncated quotient, being at least 1 means the dividend is at least d,
      and being below k (for a dividend of at least d) means the dividend is below k * d. */
  lemma TruncDivRange(a: int, d: Positive, k: int)
    ensures TruncDiv(a, d) >= 1 <==> a >= d
    ensures a >= d ==> (TruncDiv(a, d) < k <==> a < k * d)
  {
    var q := TruncDiv(a, d);
    if a >= d {
      if q < k {
        MulMonotone(q + 1, k, d);
      } else {
        MulMonotone(k, q, d);
      }
    } else if a >= 0 {
      assert q == 0 by {
        if q >= 1 { MulMonotone(1, q, d); }
      }
    }
  }

  class Grid {
    const width: nat
    const height: nat
    /** How many pixels wide and high a cell is drawn. */
    const cellSize: Positive
    /** The cells, row y outer and column x inner, as the source's rawGrid[y, x]. */
    const cells: array2<Cell>
    var speedIndex: int
    var isPaused: bool

    /** The grid's invariant: the array has the grid's shape, the dimensions
        fit the 32-bit save header, the rate index lies inside the table,
        and every border cell's stored count is the default 0, because the
        count pass never writes it. */
    ghost predicate Valid()
      reads this, cells
    {
      cells.Length0 == height && cells.Length1 == width &&
      IsInt32(width) && IsInt32(height) &&
      0 <= speedIndex < |Speeds| &&
      forall y, x | InBounds(y, x, height, width) && !Interior(y, x, height, width) ::
        cells[y, x].neighbours == 0
    }

    /** The liveness of every cell, as a board. */
    ghost function Board(): (b: Board)
      reads cells
      requires cells.Length0 == height && cells.Length1 == width
      ensures IsGrid(b, height, width)
      ensures forall y, x | InBounds(y, x, height, width) :: b[y][x] == cells[y, x].isLive
    {
      seq(height, y requires 0 <= y < height reads cells =>
        seq(width, x requires 0 <= x < width reads cells => cells[y, x].isLive))
    }

    /** No cell's stored neighbour count changed. */
    twostate predicate CountsUnchanged()
      reads this, cells
      requires old(Valid()) && Valid()
    {
      forall y, x | InBounds(y, x, height, width) :: cells[y, x].neighbours == old(cells[y, x].neighbours)
    }

    /** A new grid: all cells dead with count 0, playing, at 15 updates per second. */
    constructor (width: int, height: int, cellSize: Positive)
      requires 0 <= width <= MaxInt32 && 0 <= height <= MaxInt32
      ensures Valid() && fresh(cells)
      ensures this.width == width && this.height == height && this.cellSize == cellSize
      ensures speedIndex == InitialSpeedIndex && !isPaused
      ensures forall y, x | InBounds(y, x, height, width) :: cells[y, x] == Cell(false, 0)
    {
      this.width := width;
      this.height := height;
      this.cellSize := cellSize;
      speedIndex := InitialSpeedIndex;
      isPaused := false;
      cells := new Cell[height, width]((y, x) => Cell(false, 0));
      new;
      Clear();
    }

    /** The step gate: a generation runs only when the grid is playing, the
        window is active and the frame's timing test says a tick is due. */
    predicate StepRuns(windowActive: bool, tickDue: bool)
      reads this
    {
      !isPaused && windowActive && tickDue
    }

    /** Counts the live cells around interior cell (y, x), visiting the 3-by-3
        window row offset outer, column offset inner, and skipping the centre. */
    method CountAround(y: int, x: int, ghost g: Board) returns (count: int)
      requires Valid() && Interior(y, x, height, width) && IsGrid(g, height, width)
      requires forall yy, xx {:trigger cells[yy, xx]} | InBounds(yy, xx, height, width) :: cells[yy, xx].isLive == g[yy][xx]
      ensures count == Neighbours(g, height, width, y, x)
      ensures 0 <= count <= 8
    {
      count := 0;
      for a := -1 to 2
        invariant count == Scanned(g, height, width, y, x, a, -1)
      {
        for b := -1 to 2
          invariant count == Scanned(g, height, width, y, x, a, b)
        {
          // the centre (a, b) == (0, 0) is skipped
          if !(a == 0 && b == 0) && cells[y + a, x + b].isLive {
            count := count + 1;
          }
        }
      }
      ScanComplete(g, height, width, y, x);
    }

    /** The count pass: every interior cell stores the number of its live
        neighbours in the grid as it was before the pass; liveness and the
        border's counts are untouched. */
    method CountPass()
      requires Valid()
      modifies cells
      ensures Valid()
      ensures forall y, x | InBounds(y, x, height, width) :: cells[y, x].isLive == old(cells[y, x].isLive)
      ensures forall y, x | InBounds(y, x, height, width) ::
                cells[y, x].neighbours == CountSeen(old(Board()), height, width, y, x)
    {
      ghost var g := Board();
      var y := 1;
      while y < height - 1
        invariant 1 <= y && (y == 1 || y <= height - 1)
        invariant Valid()
        invariant forall yy, xx | InBounds(yy, xx, height, width) ::
                    cells[yy, xx] == if Interior(yy, xx, height, width) && yy < y
                                     then old(cells[yy, xx]).(neighbours := Neighbours(g, height, width, yy, xx))
                                     else old(cells[yy, xx])
      {
        SameBoard(Board(), g, height, width);
        CountRow(y, g);
        y := y + 1;
      }
    }

    /** The count pass over interior row y. */
    method CountRow(y: int, ghost g: Board)
      requires Valid() && 1 <= y < height - 1 && IsGrid(g, height, width)
      requires forall yy, xx {:trigger cells[yy, xx]} | InBounds(yy, xx, height, width) :: cells[yy, xx].isLive == g[yy][xx]
      modifies cells
      ensures Valid()
      ensures forall yy, xx | InBounds(yy, xx, height, width) ::
                cells[yy, xx] == if yy == y && Interior(yy, xx, height, width)
                                 then old(cells[yy, xx]).(neighbours := Neighbours(g, height, width, yy, xx))
                                 else old(cells[yy, xx])
    {
      
      var x := 1;
      while x < width - 1
        invariant 1 <= x && (x == 1 || x <= width - 1)
        invariant Valid()
        invariant forall yy, xx {:trigger cells[yy, xx]} | InBounds(yy, xx, height, width) :: cells[yy, xx].isLive == g[yy][xx]
        invariant forall xx {:trigger cells[y, xx]} | 1 <= xx < x ::
                    cells[y, xx] == old(cells[y, xx]).(neighbours := Neighbours(g, height, width, y, xx))
        invariant forall yy, xx {:trigger cells[yy, xx]} | InBounds(yy, xx, height, width) && !(yy == y && 1 <= xx < x) ::
                    cells[yy, xx] == old(cells[yy, xx])
      {
        var count := CountAround(y, x, g);
        cells[y, x] := cells[y, x].(neighbours := count);
        x := x + 1;
      }
    }

    /** The apply pass: every cell, border included, takes the value of the
        three sequential rule tests on its stored count. */
    method ApplyPass()
      requires Valid()
      modifies cells
      ensures Valid()
      ensures forall y, x | InBounds(y, x, height, width) ::
                cells[y, x] == old(cells[y, x]).(isLive := Apply(old(cells[y, x]).isLive, old(cells[y, x]).neighbours))
    {
      for y := 0 to height
        invariant forall yy, xx | InBounds(yy, xx, height, width) ::
                    cells[yy, xx] ==
                      if yy < y then old(cells[yy, xx]).(isLive := Apply(old(cells[yy, xx]).isLive, old(cells[yy, xx]).neighbours))
                      else old(cells[yy, xx])
      {
        for x := 0 to width
          invariant forall yy, xx | InBounds(yy, xx, height, width) ::
                      cells[yy, xx] ==
                        if yy < y || (yy == y && xx < x)
                        then old(cells[yy, xx]).(isLive := Apply(old(cells[yy, xx]).isLive, old(cells[yy, xx]).neighbours))
                        else old(cells[yy, xx])
        {
          if cells[y, x].isLive && cells[y, x].neighbours < 2 {
            cells[y, x] := cells[y, x].(isLive := false);
          }
          if cells[y, x].isLive && cells[y, x].neighbours > 3 {
            cells[y, x] := cells[y, x].(isLive := false);
          }
          if !cells[y, x].isLive && cells[y, x].neighbours == 3 {
            cells[y, x] := cells[y, x].(isLive := true);
          }
        }
      }
    }

    /** One frame's update. When the gate is closed nothing changes; otherwise
        the board becomes one generation of the board before, and each cell's
        count is the one that generation was computed from. */
    method Update(windowActive: bool, tickDue: bool)
      requires Valid()
      modifies cells
      ensures Valid()
      ensures !StepRuns(windowActive, tickDue) ==> unchanged(cells)
      ensures StepRuns(windowActive, tickDue) ==> Board() == Step(old(Board()), height, width)
      ensures StepRuns(windowActive, tickDue) ==>
                forall y, x | InBounds(y, x, height, width) ::
                  cells[y, x].neighbours == CountSeen(old(Board()), height, width, y, x)
    {
      if isPaused || !windowActive || !tickDue {
        return;
      }
      ghost var g := Board();
      CountPass();
      ApplyPass();
      SameBoard(Board(), Step(g, height, width), height, width);
    }

    /** Kills every interior cell; the border ring and all counts are kept. */
    method Clear()
      requires Valid()
      modifies cells
      ensures Valid() && CountsUnchanged()
      ensures Board() == Cleared(old(Board()), height, width)
    {
      ghost var g := Board();
      var y := 1;
      while y < height - 1
        invariant 1 <= y && (y == 1 || y <= height - 1)
        invariant forall yy, xx | InBounds(yy, xx, height, width) ::
                    cells[yy, xx] == if Interior(yy, xx, height, width) && yy < y
                                     then old(cells[yy, xx]).(isLive := false) else old(cells[yy, xx])
      {
        var x := 1;
        while x < width - 1
          invariant 1 <= x && (x == 1 || x <= width - 1)
          invariant forall yy, xx | InBounds(yy, xx, height, width) ::
                      cells[yy, xx] == if Interior(yy, xx, height, width) && (yy < y || (yy == y && xx < x))
                                       then old(cells[yy, xx]).(isLive := false) else old(cells[yy, xx])
        {
          cells[y, x] := cells[y, x].(isLive := false);
          x := x + 1;
        }
        y := y + 1;
      }
      SameBoard(Board(), Cleared(g, height, width), height, width);
    }

    /** Sets every interior cell to the coin drawn for it, coin(y, x) standing
        for the random draw rnd.Next(2) == 0; the border ring and all counts are kept. */
    method Randomise(coin: (int, int) -> bool)
      requires Valid()
      modifies cells
      ensures Valid() && CountsUnchanged()
      ensures Board() == Randomised(old(Board()), height, width, coin)
    {
      ghost var g := Board();
      var y := 1;
      while y < height - 1
        invariant 1 <= y && (y == 1 || y <= height - 1)
        invariant forall yy, xx | InBounds(yy, xx, height, width) ::
                    cells[yy, xx] == if Interior(yy, xx, height, width) && yy < y
                                     then old(cells[yy, xx]).(isLive := coin(yy, xx)) else old(cells[yy, xx])
      {
        var x := 1;
        while x < width - 1
          invariant 1 <= x && (x == 1 || x <= width - 1)
          invariant forall yy, xx | InBounds(yy, xx, height, width) ::
                      cells[yy, xx] == if Interior(yy, xx, height, width) && (yy < y || (yy == y && xx < x))
                                       then old(cells[yy, xx]).(isLive := coin(yy, xx)) else old(cells[yy, xx])
        {
          cells[y, x] := cells[y, x].(isLive := coin(y, x));
          x := x + 1;
        }
        y := y + 1;
      }
      SameBoard(Board(), Randomised(g, height, width, coin), height, width);
    }

    /** The cell coordinate under pixel mouse when the grid is drawn at origin:
        the offset divided by the cell size, truncated toward zero. For an
        offset at or right of (below) the origin, the pixel lies inside the
        column (row) it names; for one left of (above) it, the coordinate is
        at most 0 and rounds toward the origin. */
    function GetCellPosAt(mouse: Point, origin: Point): (p: Point)
      ensures mouse.x - origin.x >= 0 ==> 0 <= p.x && p.x * cellSize <= mouse.x - origin.x < (p.x + 1) * cellSize
      ensures mouse.x - origin.x < 0 ==> p.x <= 0 && (p.x - 1) * cellSize < mouse.x - origin.x <= p.x * cellSize
      ensures mouse.y - origin.y >= 0 ==> 0 <= p.y && p.y * cellSize <= mouse.y - origin.y < (p.y + 1) * cellSize
      ensures mouse.y - origin.y < 0 ==> p.y <= 0 && (p.y - 1) * cellSize < mouse.y - origin.y <= p.y * cellSize
    {
      Point(TruncDiv(mouse.x - origin.x, cellSize), TruncDiv(mouse.y - origin.y, cellSize))
    }

    /** Whether pixel mouse lies over an interior cell of the grid drawn at origin:
        exactly when the cell GetCellPosAt names is interior, and exactly when
        the pixel lies in the rectangle the interior cells cover. */
    function IsValidCell(mouse: Point, origin: Point): (valid: bool)
      ensures valid <==> Interior(GetCellPosAt(mouse, origin).y, GetCellPosAt(mouse, origin).x, height, width)
      ensures valid <==>
                origin.x + cellSize <= mouse.x < origin.x + (width - 1) * cellSize &&
                origin.y + cellSize <= mouse.y < origin.y + (height - 1) * cellSize
    {
      var dx, dy := mouse.x - origin.x, mouse.y - origin.y;
      TruncDivRange(dx, cellSize, width - 1);
      TruncDivRange(dy, cellSize, height - 1);
      var x := TruncDiv(dx, cellSize);
      var y := TruncDiv(dy, cellSize);
      x >= 1 && x < width - 1 && y >= 1 && y < height - 1
    }

    /** Sets the liveness of cell (x, y) to v; nothing else changes. */
    method SetCell(x: int, y: int, v: bool)
      requires Valid() && InBounds(y, x, height, width)
      modifies cells
      ensures Valid() && CountsUnchanged()
      ensures cells[y, x] == old(cells[y, x]).(isLive := v)
      ensures forall yy, xx | InBounds(yy, xx, height, width) && (yy, xx) != (y, x) :: cells[yy, xx] == old(cells[yy, xx])
      ensures Board() == Painted(old(Board()), height, width, {Point(x, y)}, v)
    {
      ghost var g := Board();
      cells[y, x] := cells[y, x].(isLive := v);
      SameBoard(Board(), Painted(g, height, width, {Point(x, y)}, v), height, width);
    }

    function IsPlaying(): (playing: bool)
      reads this
      ensures playing <==> !isPaused
    {
      !isPaused
    }

    method Play()
      requires Valid()
      modifies this
      ensures Valid() && !isPaused && speedIndex == old(speedIndex)
    {
      isPaused := false;
    }

    method Pause()
      requires Valid()
      modifies this
      ensures Valid() && isPaused && speedIndex == old(speedIndex)
    {
      isPaused := true;
    }

    /** Updates per second at the current rate index. */
    function Speed(): (s: int)
      reads this
      requires 0 <= speedIndex < |Speeds|
      ensures s in Speeds && s > 0 && 60 % s == 0
      ensures s == 1 <==> speedIndex == 0
      ensures s == 60 <==> speedIndex == |Speeds| - 1
    {
      SpeedsAreFactorsOfSixty();
      SpeedTableEnds();
      Speeds[speedIndex]
    }

    /** One step slower, unless already at the slowest rate. */
    method DecreaseSpeed()
      requires Valid()
      modifies this
      ensures Valid() && isPaused == old(isPaused)
      ensures speedIndex == if old(speedIndex) > 0 then old(speedIndex) - 1 else old(speedIndex)
      ensures old(speedIndex) > 0 ==> Speed() < old(Speed())
    {
      if speedIndex > 0 {
        speedIndex := speedIndex - 1;
      }
      SpeedsAreFactorsOfSixty();
    }

    /** One step faster, unless already at the fastest rate. */
    method IncreaseSpeed()
      requires Valid()
      modifies this
      ensures Valid() && isPaused == old(isPaused)
      ensures speedIndex == if old(speedIndex) < |Speeds| - 1 then old(speedIndex) + 1 else old(speedIndex)
      ensures old(speedIndex) < |Speeds| - 1 ==> Speed() > old(Speed())
    {
      if speedIndex < |Speeds| - 1 {
        speedIndex := speedIndex + 1;
      }
      SpeedsAreFactorsOfSixty();
    }

    /** Moves to rate index index when it names an entry of the table; any other value is ignored. */
    method SetSpeedIndex(index: int)
      requires Valid()
      modifies this
      ensures Valid() && isPaused == old(isPaused)
      ensures speedIndex == if 0 <= index < |Speeds| then index else old(speedIndex)
    {
      if index >= 0 && index < |Speeds| {
        speedIndex := index;
      }
    }

    /** The bytes Save writes: width, height, then every cell's liveness, row by row. */
    method Save() returns (data: seq<byte>)
      requires Valid()
      ensures data == Encode(width, height, Board())
    {
      ghost var g := Board();
      data := Int32Bytes(width) + Int32Bytes(height);
      ghost var header := data;
      for y := 0 to height
        invariant data == header + CellBytes(g[..y])
      {
        ghost var before := data;
        for x := 0 to width
          invariant data == before + RowBytes(g[y][..x])
        {
          data := data + [BoolByte(cells[y, x].isLive)];
          assert RowBytes(g[y][..x + 1]) == RowBytes(g[y][..x]) + [BoolByte(g[y][x])];
        }
        assert g[..y + 1][..y] == g[..y];
        assert g[y][..width] == g[y];
      }
      assert g[..height] == g;
    }

    /** Reads a save into the grid. The header is read first: too short a
        stream ends the load before any cell is touched, and a header naming
        other dimensions is refused before any cell is touched. Otherwise the
        cells are read in row-major order until the data runs out. Counts are kept. */
    method Load(data: seq<byte>) returns (outcome: LoadOutcome)
      requires Valid()
      modifies cells
      ensures Valid() && CountsUnchanged()
      ensures outcome == LoadResult(data, width, height)
      ensures Board() == LoadedBoard(data, width, height, old(Board()))
    {
      ghost var g := Board();
      if |data| < 8 {
        return EndOfStream;
      }
      var newWidth := ReadInt32(data[..4]);
      var newHeight := ReadInt32(data[4..8]);
      if newWidth != width || newHeight != height {
        return SizeMismatch;
      }
      ghost var target := LoadedBoard(data, width, height, g);
      var pos := 8;
      var y := 0;
      while y < height
        invariant 0 <= y <= height && pos == 8 + y * width && pos <= |data|
        invariant forall yy, xx | InBounds(yy, xx, height, width) ::
                    cells[yy, xx] == if yy < y then old(cells[yy, xx]).(isLive := target[yy][xx]) else old(cells[yy, xx])
      {
        var x := 0;
        while x < width
          invariant 0 <= x <= width && pos == 8 + y * width + x && pos <= |data|
          invariant forall yy, xx | InBounds(yy, xx, height, width) ::
                      cells[yy, xx] == if yy < y || (yy == y && xx < x) then old(cells[yy, xx]).(isLive := target[yy][xx])
                                       else old(cells[yy, xx])
        {
          if pos >= |data| {
            assert Valid();
            LoadStopped(data, width, height, g, Board(), y, x);
            return EndOfStream;
          }
          assert target[y][x] == ReadBool(data[pos]);
          cells[y, x] := cells[y, x].(isLive := ReadBool(data[pos]));
          pos := pos + 1;
          x := x + 1;
        }
        assert pos == 8 + (y + 1) * width;
        y := y + 1;
      }
      assert Valid();
      SameBoard(Board(), target, height, width);
      return Loaded;
    }
  }
}
