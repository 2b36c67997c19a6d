/** The tutorial scene: a 38-by-38 grid beside seven pages of text. Each
    page (phase 0 to 6) loads a grid file and fixes the rate, the play
    state, whether the play/pause buttons work and whether the user may
    draw. Each frame first lets the grid take its generation and only then
    handles leaving, resetting the page, going on to the sandbox, turning
    pages, play/pause and mouse painting. */
module TutorialScene {
  import opened LifeRules
  import opened Persistence
  import opened Frames
  import opened Simulation
  import opened Painter

  const Width: nat := 38
  const Height: nat := 38
  const CellSizeLive: Positive := 16
  const Origin: Point := Point(12, 12)

  /** The last page. */
  const MaxPhase: int := 6

  /** The update-rate index each page sets. */
  const PhaseSpeedIndices: seq<int> := [3, 1, 1, 3, 5, 5, 6]

  /** The grid file each page loads. */
  const PhaseGrids: seq<string> := ["empty", "empty", "stills", "oscillators", "spaceships", "pentamino", "border"]

  /** Pages where the grid runs on arrival. */
  predicate PhasePlays(phase: int) {
    phase == 0 || phase == 1 || phase == MaxPhase
  }

  /** Pages where the user may paint and erase. */
  predicate PhaseDraws(phase: int) {
    phase == 0 || phase == 1 || phase == MaxPhase
  }

  /** Pages where the play and pause buttons are disabled. */
  predicate PhaseLocksPlayPause(phase: int) {
    phase == 0 || phase == 1
  }

  /** Every page's grid file is present and is a save of a 38-by-38 grid. */
  predicate AssetsFit(assets: map<string, seq<byte>>) {
    forall p | 0 <= p <= MaxPhase :: PhaseGrids[p] in assets && LoadResult(assets[PhaseGrids[p]], Width, Height) == Loaded
  }

  /** The page after the frame's next and previous buttons: next moves on
      unless on the last page, then previous moves back unless on the first. */
  function NextPhase(p: int, f: Frame): int {
    if Fires(f, Right, NextButton) && p < MaxPhase then p + 1 else p
  }

  function FramePhase(p: int, f: Frame): (r: int)
    requires 0 <= p <= MaxPhase
    ensures 0 <= r <= MaxPhase
    ensures p - 1 <= r <= p + 1
    ensures !Fires(f, Right, NextButton) && !Fires(f, Left, PrevButton) ==> r == p
  {
    var n := NextPhase(p, f);
    if Fires(f, Left, PrevButton) && n > 0 then n - 1 else n
  }

  /** Whether the frame re-applies a page's settings: on reset, and on every page turn. */
  predicate Reloads(p: int, f: Frame) {
    Fires(f, F5, ResetButton) || (Fires(f, Right, NextButton) && p < MaxPhase) ||
    (Fires(f, Left, PrevButton) && NextPhase(p, f) > 0)
  }

  class Tutorial {
    const grid: Grid
    /** The bundled grid files, by name. */
    const assets: map<string, seq<byte>>
    var phase: int
    var canDraw: bool
    var prevDisabled: bool
    var nextDisabled: bool
    var playDisabled: bool
    var pauseDisabled: bool

    ghost predicate Valid()
      reads this, grid, grid.cells
    {
      grid.Valid() && grid.width == Width && grid.height == Height && grid.cellSize == CellSizeLive &&
      AssetsFit(assets) && 0 <= phase <= MaxPhase
    }

    /** The board page p's grid file holds. */
    ghost function PhaseBoard(p: int): (b: Board)
      requires AssetsFit(assets) && 0 <= p <= MaxPhase
      ensures IsGrid(b, Height, Width)
    {
      LoadedBoard(assets[PhaseGrids[p]], Width, Height, Pattern(Height, Width, {}))
    }

    /** What entering sets up and every frame keeps: the page buttons are
        disabled exactly at the ends, drawing and the play/pause buttons
        follow the page, the rate is the page's, and on the pages that lock
        play/pause the grid is playing. */
    ghost predicate Consistent()
      reads this, grid
      requires 0 <= phase <= MaxPhase
    {
      (prevDisabled <==> phase == 0) && (nextDisabled <==> phase == MaxPhase) &&
      canDraw == PhaseDraws(phase) &&
      playDisabled == PhaseLocksPlayPause(phase) && pauseDisabled == PhaseLocksPlayPause(phase) &&
      grid.speedIndex == PhaseSpeedIndices[phase] &&
      (PhaseLocksPlayPause(phase) ==> !grid.isPaused)
    }

    /** A new tutorial scene: an all-dead grid on page 0, every button enabled, drawing off. */
    constructor (assets: map<string, seq<byte>>)
      requires AssetsFit(assets)
      ensures Valid() && fresh(grid) && fresh(grid.cells) && this.assets == assets
      ensures phase == 0 && !canDraw
      ensures !prevDisabled && !nextDisabled && !playDisabled && !pauseDisabled
      ensures AllDead(grid.Board(), Height, Width)
    {
      grid := new Grid(Width, Height, CellSizeLive);
      this.assets := assets;
      phase := 0;
      canDraw := false;
      prevDisabled := false;
      nextDisabled := false;
      playDisabled := false;
      pauseDisabled := false;
    }

    method DisablePlayPause()
      modifies this`playDisabled, this`pauseDisabled
      ensures playDisabled && pauseDisabled
    {
      playDisabled := true;
      pauseDisabled := true;
    }

    method EnablePlayPause()
      modifies this`playDisabled, this`pauseDisabled
      ensures !playDisabled && !pauseDisabled
    {
      playDisabled := false;
      pauseDisabled := false;
    }

    /** Loads the bundled grid file called name, replacing every cell. */
    method LoadGrid(name: string)
      requires Valid() && name in assets && LoadResult(assets[name], Width, Height) == Loaded
      modifies grid.cells
      ensures Valid()
      ensures grid.Board() == LoadedBoard(assets[name], Width, Height, Pattern(Height, Width, {}))
    {
      ghost var before := grid.Board();
      var outcome := grid.Load(assets[name]);
      CompleteLoadOverwrites(assets[name], Width, Height, before, Pattern(Height, Width, {}));
    }

    /** Applies the current page's settings: the play/pause buttons, drawing,
        the play state, the rate, and the page's grid file. */
    method OnPhaseChange()
      requires Valid()
      modifies this`canDraw, this`playDisabled, this`pauseDisabled, grid, grid.cells
      ensures Valid()
      ensures canDraw == PhaseDraws(phase)
      ensures playDisabled == PhaseLocksPlayPause(phase) && pauseDisabled == PhaseLocksPlayPause(phase)
      ensures grid.isPaused == !PhasePlays(phase) && grid.speedIndex == PhaseSpeedIndices[phase]
      ensures grid.Board() == PhaseBoard(phase)
    {
      assert PhaseGrids[phase] in assets && LoadResult(assets[PhaseGrids[phase]], Width, Height) == Loaded;
      match phase
      case 0 =>
        DisablePlayPause();
        canDraw := true;
        grid.Play();
        grid.SetSpeedIndex(3);
        LoadGrid("empty");
      case 1 =>
        DisablePlayPause();
        canDraw := true;
        grid.Play();
        grid.SetSpeedIndex(1);
        LoadGrid("empty");
      case 2 =>
        EnablePlayPause();
        canDraw := false;
        grid.Pause();
        grid.SetSpeedIndex(1);
        LoadGrid("stills");
      case 3 =>
        EnablePlayPause();
        canDraw := false;
        grid.Pause();
        grid.SetSpeedIndex(3);
        LoadGrid("oscillators");
      case 4 =>
        EnablePlayPause();
        canDraw := false;
        grid.Pause();
        grid.SetSpeedIndex(5);
        LoadGrid("spaceships");
      case 5 =>
        EnablePlayPause();
        canDraw := false;
        grid.Pause();
        grid.SetSpeedIndex(5);
        LoadGrid("pentamino");
      case 6 =>
        EnablePlayPause();
        canDraw := true;
        grid.Play();
        grid.SetSpeedIndex(6);
        LoadGrid("border");
    }

    /** Entering the scene: page 0, the previous button disabled, the next one enabled, page 0's settings. */
    method OnEntry()
      requires Valid()
      modifies this, grid, grid.cells
      ensures Valid() && Consistent() && phase == 0
      ensures !grid.isPaused && grid.Board() == PhaseBoard(0)
    {
      phase := 0;
      prevDisabled := true;
      nextDisabled := false;
      OnPhaseChange();
    }

    /** The next page button: moves on unless on the last page, then re-applies the page's settings. */
    method NextPage(f: Frame)
      requires Valid() && Consistent()
      modifies this`phase, this`prevDisabled, this`nextDisabled, this`canDraw, this`playDisabled, this`pauseDisabled
      modifies grid, grid.cells
      ensures Valid() && Consistent()
      ensures phase == NextPhase(old(phase), f)
      ensures var turned := Fires(f, Right, NextButton) && old(phase) < MaxPhase;
              grid.isPaused == (if turned then !PhasePlays(phase) else old(grid.isPaused)) &&
              grid.Board() == (if turned then PhaseBoard(phase) else old(grid.Board()))
    {
      if Fires(f, Right, NextButton) && phase < MaxPhase {
        phase := phase + 1;
        prevDisabled := false;
        if phase == MaxPhase {
          nextDisabled := true;
        }
        OnPhaseChange();
      }
    }

    /** The previous page button: moves back unless on the first page, then re-applies the page's settings. */
    method PrevPage(f: Frame)
      requires Valid() && Consistent()
      modifies this`phase, this`prevDisabled, this`nextDisabled, this`canDraw, this`playDisabled, this`pauseDisabled
      modifies grid, grid.cells
      ensures Valid() && Consistent()
      ensures phase == if Fires(f, Left, PrevButton) && old(phase) > 0 then old(phase) - 1 else old(phase)
      ensures var turned := Fires(f, Left, PrevButton) && old(phase) > 0;
              grid.isPaused == (if turned then !PhasePlays(phase) else old(grid.isPaused)) &&
              grid.Board() == (if turned then PhaseBoard(phase) else old(grid.Board()))
    {
      if Fires(f, Left, PrevButton) && phase > 0 {
        phase := phase - 1;
        nextDisabled := false;
        if phase == 0 {
          prevDisabled := true;
        }
        OnPhaseChange();
      }
    }

    /** Play/pause, honoured only while the matching button is enabled. */
    method PlayPause(f: Frame)
      requires Valid() && Consistent()
      modifies grid
      ensures Valid() && Consistent()
      ensures grid.isPaused == if PhaseLocksPlayPause(phase) then old(grid.isPaused) else Toggled(old(grid.isPaused), f)
    {
      if Fires(f, Space, PlayButton) && !grid.IsPlaying() && !playDisabled {
        grid.Play();
      } else if Fires(f, Space, PauseButton) && grid.IsPlaying() && !pauseDisabled {
        grid.Pause();
      }
    }

    /** F5 or the reset button re-applies the current page's settings; the page stays. */
    method Reset(f: Frame)
      requires Valid() && Consistent()
      modifies this`canDraw, this`playDisabled, this`pauseDisabled, grid, grid.cells
      ensures Valid() && Consistent()
      ensures grid.isPaused == (if Fires(f, F5, ResetButton) then !PhasePlays(phase) else old(grid.isPaused))
      ensures grid.Board() == (if Fires(f, F5, ResetButton) then PhaseBoard(phase) else old(grid.Board()))
    {
      if Fires(f, F5, ResetButton) {
        OnPhaseChange();
      }
    }

    /** The frame's buttons, after the grid's generation: Escape or back asks
        for the title scene, reset re-applies the page, Enter or the sandbox
        button asks for the sandbox on the last page only, the page buttons
        turn pages, and play/pause works unless locked. */
    method Controls(f: Frame) returns (next: Option<SceneId>)
      requires Valid() && Consistent()
      modifies this`phase, this`prevDisabled, this`nextDisabled, this`canDraw, this`playDisabled, this`pauseDisabled
      modifies grid, grid.cells
      ensures Valid() && Consistent()
      ensures phase == FramePhase(old(phase), f)
      ensures next == if Fires(f, Enter, SandboxButton) && old(phase) == MaxPhase then Some(Sim)
                      else if Fires(f, Escape, BackButton) then Some(Title)
                      else None
      ensures var settled := if Reloads(old(phase), f) then !PhasePlays(phase) else old(grid.isPaused);
              grid.isPaused == if PhaseLocksPlayPause(phase) then settled else Toggled(settled, f)
      ensures grid.Board() == if Reloads(old(phase), f) then PhaseBoard(phase) else old(grid.Board())
    {
      next := None;
      if Fires(f, Escape, BackButton) {
        next := Some(Title);
      }

      Reset(f);

      if Fires(f, Enter, SandboxButton) && phase == MaxPhase {
        next := Some(Sim);
      }

      TurnPages(f);
      PlayPause(f);
    }

    /** The next and then the previous page button. */
    method TurnPages(f: Frame)
      requires Valid() && Consistent()
      modifies this`phase, this`prevDisabled, this`nextDisabled, this`canDraw, this`playDisabled, this`pauseDisabled
      modifies grid, grid.cells
      ensures Valid() && Consistent()
      ensures phase == FramePhase(old(phase), f)
      ensures var turned := (Fires(f, Right, NextButton) && old(phase) < MaxPhase) ||
                            (Fires(f, Left, PrevButton) && NextPhase(old(phase), f) > 0);
              grid.isPaused == (if turned then !PhasePlays(phase) else old(grid.isPaused)) &&
              grid.Board() == (if turned then PhaseBoard(phase) else old(grid.Board()))
    {
      NextPage(f);
      PrevPage(f);
    }

    /** The part of a frame before painting: the grid's generation when the
        gate is open, then the buttons (Controls). */
    method StepThenControls(f: Frame) returns (next: Option<SceneId>)
      requires Valid() && Consistent()
      modifies this`phase, this`prevDisabled, this`nextDisabled, this`canDraw, this`playDisabled, this`pauseDisabled
      modifies grid, grid.cells
      ensures Valid() && Consistent()
      ensures phase == FramePhase(old(phase), f)
      ensures next == if Fires(f, Enter, SandboxButton) && old(phase) == MaxPhase then Some(Sim)
                      else if Fires(f, Escape, BackButton) then Some(Title)
                      else None
      ensures var settled := if Reloads(old(phase), f) then !PhasePlays(phase) else old(grid.isPaused);
              grid.isPaused == if PhaseLocksPlayPause(phase) then settled else Toggled(settled, f)
      ensures var stepped := if old(grid.StepRuns(f.windowActive, f.tickDue)) then Step(old(grid.Board()), Height, Width)
                             else old(grid.Board());
              grid.Board() == if Reloads(old(phase), f) then PhaseBoard(phase) else stepped
    {
      grid.Update(f.windowActive, f.tickDue);
      next := Controls(f);
    }

    /** One frame. The grid first takes its generation when the gate is open;
        then the buttons act (Controls); and painting and erasing happen only
        on pages that allow drawing, after this frame's generation. */
    method Update(f: Frame) returns (next: Option<SceneId>)
      requires Valid() && Consistent()
      modifies this`phase, this`prevDisabled, this`nextDisabled, this`canDraw, this`playDisabled, this`pauseDisabled
      modifies grid, grid.cells
      ensures Valid() && Consistent()
      ensures phase == FramePhase(old(phase), f)
      ensures next == if Fires(f, Enter, SandboxButton) && old(phase) == MaxPhase then Some(Sim)
                      else if Fires(f, Escape, BackButton) then Some(Title)
                      else None
      ensures var settled := if Reloads(old(phase), f) then !PhasePlays(phase) else old(grid.isPaused);
              grid.isPaused == if PhaseLocksPlayPause(phase) then settled else Toggled(settled, f)
      ensures var stepped := if old(grid.StepRuns(f.windowActive, f.tickDue)) then Step(old(grid.Board()), Height, Width)
                             else old(grid.Board());
              var shown := if Reloads(old(phase), f) then PhaseBoard(phase) else stepped;
              grid.Board() == if PhaseDraws(phase) then FrameEdits(grid, f, Origin, shown) else shown
    {
      next := StepThenControls(f);
      if canDraw {
        PaintFrame(grid, f, Origin);
      }
    }
  }
}
