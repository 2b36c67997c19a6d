/** The sandbox scene: a 78-by-38 grid the user runs freely. Each frame it
    handles, in this order, leaving for the title screen, the play/pause
    toggle, clearing, randomising, the two speed buttons, mouse painting and
    erasing, and finally the grid's own update, so the frame's edits are
    part of the generation that frame may compute. */
module SandboxScene {
  import opened LifeRules
  import opened Frames
  import opened Simulation
  import opened Painter

  const Width: nat := 78
  const Height: nat := 38
  const CellSizeLive: Positive := 16

  /** Where the grid is drawn: centred across the 1280-pixel-wide screen, 16 pixels down. */
  const Origin: Point := Point(1280 / 2 - (Width * CellSizeLive) / 2, 16)

  /** The board after a frame's clear and randomise buttons. Both act on the
      interior only, and a randomise overrides a clear in the same frame. */
  function Commanded(b: Board, f: Frame): (r: Board)
    requires IsGrid(b, Height, Width)
    ensures IsGrid(r, Height, Width)
    ensures forall y, x | InBounds(y, x, Height, Width) ::
              r[y][x] == if !Interior(y, x, Height, Width) then b[y][x]
                         else if Fires(f, F5, RandomButton) then f.coin(y, x)
                         else if Fires(f, Delete, ClearButton) then false
                         else b[y][x]
  {
    var cleared := if Fires(f, Delete, ClearButton) then Cleared(b, Height, Width) else b;
    if Fires(f, F5, RandomButton) then Randomised(cleared, Height, Width, f.coin) else cleared
  }

  /** The update-rate index after a frame's faster and slower buttons. */
  function SpeedAfter(i: int, f: Frame): (r: int)
    requires 0 <= i < |Speeds|
    ensures 0 <= r < |Speeds|
    ensures !Fires(f, Right, FasterButton) && !Fires(f, Left, SlowerButton) ==> r == i
  {
    var faster := if Fires(f, Right, FasterButton) && i < |Speeds| - 1 then i + 1 else i;
    if Fires(f, Left, SlowerButton) && faster > 0 then faster - 1 else faster
  }

  class Sandbox {
    const grid: Grid
    var increaseDisabled: bool
    var decreaseDisabled: bool

    ghost predicate Valid()
      reads this, grid, grid.cells
    {
      grid.Valid() && grid.width == Width && grid.height == Height && grid.cellSize == CellSizeLive
    }

    /** The speed buttons show which way the rate can still move: faster is
        disabled exactly at 60 updates per second, slower exactly at 1. */
    predicate ButtonsAgree()
      reads this, grid
      requires 0 <= grid.speedIndex < |Speeds|
    {
      (increaseDisabled <==> grid.Speed() == 60) && (decreaseDisabled <==> grid.Speed() == 1)
    }

    /** A new sandbox: an all-dead grid, playing at 15 updates per second, both speed buttons enabled. */
    constructor ()
      ensures Valid() && ButtonsAgree() && fresh(grid) && fresh(grid.cells)
      ensures !grid.isPaused && grid.speedIndex == InitialSpeedIndex
      ensures !increaseDisabled && !decreaseDisabled
      ensures AllDead(grid.Board(), Height, Width)
    {
      grid := new Grid(Width, Height, CellSizeLive);
      increaseDisabled := false;
      decreaseDisabled := false;
      new;
      SpeedTableEnds();
    }

    /** Entering the scene: playing, interior cleared, 15 updates per second, both speed buttons enabled. */
    method OnEntry()
      requires Valid()
      modifies this, grid, grid.cells
      ensures Valid() && ButtonsAgree()
      ensures !grid.isPaused && grid.speedIndex == InitialSpeedIndex
      ensures !increaseDisabled && !decreaseDisabled
      ensures grid.Board() == Cleared(old(grid.Board()), Height, Width)
    {
      grid.Play();
      grid.Clear();
      grid.SetSpeedIndex(8);
      increaseDisabled := false;
      decreaseDisabled := false;
      SpeedTableEnds();
    }

    /** The two speed buttons, faster then slower, each moving the rate and
        then setting the buttons' disabled flags. */
    method ChangeSpeed(f: Frame)
      requires Valid() && ButtonsAgree()
      modifies this, grid
      ensures Valid() && ButtonsAgree()
      ensures grid.speedIndex == SpeedAfter(old(grid.speedIndex), f) && grid.isPaused == old(grid.isPaused)
    {
      if Fires(f, Right, FasterButton) {
        grid.IncreaseSpeed();
        if grid.Speed() == 60 {
          increaseDisabled := true;
        }
        decreaseDisabled := false;
      }
      if Fires(f, Left, SlowerButton) {
        grid.DecreaseSpeed();
        if grid.Speed() == 1 {
          decreaseDisabled := true;
        }
        increaseDisabled := false;
      }
    }

    /** The frame's buttons that act on the grid's state other than its
        rate: the play/pause toggle, then clear, then randomise. */
    method Commands(f: Frame)
      requires Valid()
      modifies grid, grid.cells
      ensures Valid()
      ensures grid.isPaused == Toggled(old(grid.isPaused), f) && grid.speedIndex == old(grid.speedIndex)
      ensures grid.Board() == Commanded(old(grid.Board()), f)
    {
      if Fires(f, Space, PlayButton) && !grid.IsPlaying() {
        grid.Play();
      } else if Fires(f, Space, PauseButton) && grid.IsPlaying() {
        grid.Pause();
      }
      if Fires(f, Delete, ClearButton) {
        grid.Clear();
      }
      if Fires(f, F5, RandomButton) {
        grid.Randomise(f.coin);
      }
    }

    /** One frame. It asks for the title scene on Escape or a click on back;
        toggles play state; applies clear, randomise and the speed buttons;
        paints and erases; and then lets the grid take one generation, of the
        board with this frame's edits, when the gate is open. */
    method Update(f: Frame) returns (next: Option<SceneId>)
      requires Valid() && ButtonsAgree()
      modifies this, grid, grid.cells
      ensures Valid() && ButtonsAgree()
      ensures next == if Fires(f, Escape, BackButton) then Some(Title) else None
      ensures grid.isPaused == Toggled(old(grid.isPaused), f)
      ensures grid.speedIndex == SpeedAfter(old(grid.speedIndex), f)
      ensures var edited := FrameEdits(grid, f, Origin, Commanded(old(grid.Board()), f));
              grid.Board() == if grid.StepRuns(f.windowActive, f.tickDue) then Step(edited, Height, Width) else edited
    {
      next := None;
      if Fires(f, Escape, BackButton) {
        next := Some(Title);
      }
      Commands(f);
      ChangeSpeed(f);
      PaintFrame(grid, f, Origin);
      grid.Update(f.windowActive, f.tickDue);
    }
  }
}
