/** Painting and erasing with the mouse, as both scenes that own a grid do
    it: a press sets the cell under the cursor, a hold sets the cell under
    every pixel sample of the motion since the last frame, and every point
    is first checked to lie over an interior cell. Painting blocks run
    before erasing blocks, so an erase wins over a paint of the same cell. */
module Painter {
  import opened LifeRules
  import opened Persistence
  import opened Frames
  import opened Simulation

  /** The cells that a run of pixel samples lands on, leaving out every
      sample that is not over an interior cell. */
  function Targets(grid: Grid, samples: seq<Point>, origin: Point): (s: set<Point>)
    ensures forall p | p in s :: Interior(p.y, p.x, grid.height, grid.width)
    ensures forall i | 0 <= i < |samples| && grid.IsValidCell(samples[i], origin) ::
              grid.GetCellPosAt(samples[i], origin) in s
  {
    set i | 0 <= i < |samples| && grid.IsValidCell(samples[i], origin) :: grid.GetCellPosAt(samples[i], origin)
  }

  /** Painting a set of cells and then another with the same value paints their union. */
  lemma PaintedTwice(b: Board, h: nat, w: nat, s: set<Point>, t: set<Point>, v: bool)
    requires IsGrid(b, h, w)
    ensures Painted(Painted(b, h, w, s, v), h, w, t, v) == Painted(b, h, w, s + t, v)
  {
    SameBoard(Painted(Painted(b, h, w, s, v), h, w, t, v), Painted(b, h, w, s + t, v), h, w);
  }

  /** Painting no cell changes nothing. */
  lemma PaintedNothing(b: Board, h: nat, w: nat, v: bool)
    requires IsGrid(b, h, w)
    ensures Painted(b, h, w, {}, v) == b
  {
    SameBoard(Painted(b, h, w, {}, v), b, h, w);
  }

  /** A single position lands on the cell under it when that cell is interior, and on nothing otherwise. */
  lemma TargetsOfOne(grid: Grid, pos: Point, origin: Point)
    ensures Targets(grid, [pos], origin) ==
              if grid.IsValidCell(pos, origin) then {grid.GetCellPosAt(pos, origin)} else {}
  {
    var s := [pos];
    assert s[0] == pos;
    if grid.IsValidCell(pos, origin) {
      assert grid.GetCellPosAt(s[0], origin) in Targets(grid, s, origin);
    }
  }

  /** The cells of a run of samples extended by one are those of the run and those of the new sample. */
  lemma TargetsSnoc(grid: Grid, samples: seq<Point>, pos: Point, origin: Point)
    ensures Targets(grid, samples + [pos], origin) == Targets(grid, samples, origin) + Targets(grid, [pos], origin)
  {
    var t := samples + [pos];
    TargetsOfOne(grid, pos, origin);
    forall p | p in Targets(grid, t, origin)
      ensures p in Targets(grid, samples, origin) + Targets(grid, [pos], origin)
    {
      var i :| 0 <= i < |t| && grid.IsValidCell(t[i], origin) && grid.GetCellPosAt(t[i], origin) == p;
      if i < |samples| {
        assert t[i] == samples[i];
      }
    }
    forall p | p in Targets(grid, samples, origin) ensures p in Targets(grid, t, origin) {
      var i :| 0 <= i < |samples| && grid.IsValidCell(samples[i], origin) && grid.GetCellPosAt(samples[i], origin) == p;
      assert t[i] == samples[i];
    }
    assert t[|samples|] == pos;
  }

  /** Sets the cell under pixel pos to v when it is an interior cell; does nothing otherwise. */
  method PaintPoint(grid: Grid, pos: Point, origin: Point, v: bool)
    requires grid.Valid()
    modifies grid.cells
    ensures grid.Valid() && grid.CountsUnchanged()
    ensures grid.Board() == Painted(old(grid.Board()), grid.height, grid.width, Targets(grid, [pos], origin), v)
  {
    TargetsOfOne(grid, pos, origin);
    if grid.IsValidCell(pos, origin) {
      var cell := grid.GetCellPosAt(pos, origin);
      grid.SetCell(cell.x, cell.y, v);
    } else {
      PaintedNothing(old(grid.Board()), grid.height, grid.width, v);
    }
  }

  /** Paints every sample of a drag in order, each through the interior check. */
  method PaintStroke(grid: Grid, samples: seq<Point>, origin: Point, v: bool)
    requires grid.Valid()
    modifies grid.cells
    ensures grid.Valid() && grid.CountsUnchanged()
    ensures grid.Board() == Painted(old(grid.Board()), grid.height, grid.width, Targets(grid, samples, origin), v)
  {
    ghost var g := grid.Board();
    PaintedNothing(g, grid.height, grid.width, v);
    assert Targets(grid, samples[..0], origin) == {};
    for i := 0 to |samples|
      invariant grid.Valid() && grid.CountsUnchanged()
      invariant grid.Board() == Painted(g, grid.height, grid.width, Targets(grid, samples[..i], origin), v)
    {
      ghost var done := Targets(grid, samples[..i], origin);
      PaintPoint(grid, samples[i], origin, v);
      PaintedTwice(g, grid.height, grid.width, done, Targets(grid, [samples[i]], origin), v);
      assert samples[..i + 1] == samples[..i] + [samples[i]];
      TargetsSnoc(grid, samples[..i], samples[i], origin);
    }
    assert samples[..|samples|] == samples;
  }

  /** The cells this frame's left button paints: the one under the cursor on a
      press, the ones under the drag samples on a hold. */
  function PaintTargets(grid: Grid, f: Frame, origin: Point): set<Point> {
    (if LeftPressed(f) then Targets(grid, [f.mouse], origin) else {}) +
    (if LeftHeld(f) then Targets(grid, f.samples, origin) else {})
  }

  /** The cells this frame's right button erases, chosen as PaintTargets chooses. */
  function EraseTargets(grid: Grid, f: Frame, origin: Point): set<Point> {
    (if RightPressed(f) then Targets(grid, [f.mouse], origin) else {}) +
    (if RightHeld(f) then Targets(grid, f.samples, origin) else {})
  }

  /** The board after one frame's four paint and erase blocks, in the scenes'
      order: left press, left hold, right press, right hold. A cell erased this
      frame ends dead even if it was painted too; a cell only painted ends live;
      every other cell, and the whole border ring, keeps its value. */
  function FrameEdits(grid: Grid, f: Frame, origin: Point, b: Board): (r: Board)
    requires IsGrid(b, grid.height, grid.width)
    ensures IsGrid(r, grid.height, grid.width)
    ensures forall y, x | InBounds(y, x, grid.height, grid.width) ::
              r[y][x] == if Point(x, y) in EraseTargets(grid, f, origin) then false
                         else if Point(x, y) in PaintTargets(grid, f, origin) then true
                         else b[y][x]
    ensures forall y, x | InBounds(y, x, grid.height, grid.width) && !Interior(y, x, grid.height, grid.width) ::
              r[y][x] == b[y][x]
  {
    var h, w := grid.height, grid.width;
    var b1 := if LeftPressed(f) then Painted(b, h, w, Targets(grid, [f.mouse], origin), true) else b;
    var b2 := if LeftHeld(f) then Painted(b1, h, w, Targets(grid, f.samples, origin), true) else b1;
    var b3 := if RightPressed(f) then Painted(b2, h, w, Targets(grid, [f.mouse], origin), false) else b2;
    if RightHeld(f) then Painted(b3, h, w, Targets(grid, f.samples, origin), false) else b3
  }

  /** One frame's mouse painting and erasing on the grid. */
  method PaintFrame(grid: Grid, f: Frame, origin: Point)
    requires grid.Valid()
    modifies grid.cells
    ensures grid.Valid() && grid.CountsUnchanged()
    ensures grid.Board() == FrameEdits(grid, f, origin, old(grid.Board()))
  {
    if LeftPressed(f) {
      PaintPoint(grid, f.mouse, origin, true);
    }
    if LeftHeld(f) {
      PaintStroke(grid, f.samples, origin, true);
    }
    if RightPressed(f) {
      PaintPoint(grid, f.mouse, origin, false);
    }
    if RightHeld(f) {
      PaintStroke(grid, f.samples, origin, false);
    }
  }

  // ---------------------------------------------------------------------------
  // Strokes leave no gaps

  /** The samples of a drag of n pixels straight to the right from last. For
      such a motion the direction is exactly (1, 0), so sample i is last
      moved i pixels right, for every i below the distance n. */
  function RightwardDrag(last: Point, n: nat): seq<Point> {
    seq(n, i requires 0 <= i < n => Point(last.x + i, last.y))
  }

  /** A sample behind a cell that a run of samples lands on. */
  lemma SampleOf(grid: Grid, samples: seq<Point>, origin: Point, p: Point) returns (i: nat)
    requires p in Targets(grid, samples, origin)
    ensures i < |samples| && grid.IsValidCell(samples[i], origin) && grid.GetCellPosAt(samples[i], origin) == p
  {
    i :| 0 <= i < |samples| && grid.IsValidCell(samples[i], origin) && grid.GetCellPosAt(samples[i], origin) == p;
  }

  /** The first pixel offset of column k lies in column k. */
  lemma ColumnStart(k: nat, d: Positive)
    ensures TruncDiv(k * d, d) == k
  {
    var q := TruncDiv(k * d, d);
    assert q * d <= k * d < (q + 1) * d;
    if q < k {
      MulMonotone(q + 1, k, d);
    }
  }

  /** Between a pixel offset in column c1 and one in column c2, where columns are
      d pixels wide and 1 <= c1 < k <= c2, lies the first pixel offset k * d of column k. */
  lemma ColumnStartBetween(d: Positive, c1: int, c2: int, k: int, dx1: int, dx2: int)
    requires 1 <= c1 < k <= c2
    requires TruncDiv(dx1, d) == c1 && TruncDiv(dx2, d) == c2
    ensures dx1 < k * d <= dx2 && TruncDiv(k * d, d) == k
  {
    assert dx1 >= 0 && dx1 < (c1 + 1) * d;
    MulMonotone(c1 + 1, k, d);
    assert dx2 >= 0 && c2 * d <= dx2;
    MulMonotone(k, c2, d);
    ColumnStart(k, d);
  }

  /** A fast drag to the right leaves no gap: when it paints two cells of a
      row, it paints every cell of that row between them. */
  lemma {:induction false} DragLeavesNoGap(grid: Grid, last: Point, n: nat, origin: Point, row: int, c1: int, c2: int, k: int)
    requires Point(c1, row) in Targets(grid, RightwardDrag(last, n), origin)
    requires Point(c2, row) in Targets(grid, RightwardDrag(last, n), origin)
    requires c1 <= k <= c2
    ensures Point(k, row) in Targets(grid, RightwardDrag(last, n), origin)
  {
    var s := RightwardDrag(last, n);
    var i1 := SampleOf(grid, s, origin, Point(c1, row));
    var i2 := SampleOf(grid, s, origin, Point(c2, row));
    if k > c1 {
      var d := grid.cellSize;
      var dx1, dx2 := last.x + i1 - origin.x, last.x + i2 - origin.x;
      assert s[i1] == Point(last.x + i1, last.y) && s[i2] == Point(last.x + i2, last.y);
      ColumnStartBetween(d, c1, c2, k, dx1, dx2);
      var i := origin.x + k * d - last.x;
      assert i1 < i <= i2;
      var q := s[i];
      assert q == Point(origin.x + k * d, last.y);
      assert grid.GetCellPosAt(q, origin) == Point(k, row);
      assert grid.IsValidCell(q, origin);
    }
  }
}
