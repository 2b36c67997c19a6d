# Game of Life grid engine, in Dafny

This project models the core of a Conway's Game of Life program: the `Grid`
that holds the cells and steps them, and the two scenes that own a grid and
drive it from the mouse and keyboard (the free-play sandbox and the
seven-page tutorial).

- `life_rules.dfy` (module `LifeRules`): boards as values (`seq<seq<bool>>`),
  the Moore neighbour count, the apply rule, one generation (`Step`), interior
  clearing, randomising and painting as board functions, and the classic
  patterns: a dead grid, the 2-by-2 block, the blinker.
- `persistence.dfy` (module `Persistence`): the save layout as bytes. That is
  the 32-bit width, the 32-bit height, then one boolean byte per cell, row by
  row. It gives what `Save` writes and what `Load` makes of any byte sequence,
  including a size mismatch and a short stream.
- `grid.dfy` (module `Simulation`): the class `Grid` over an `array2<Cell>`.
  `Update` is the gated two-pass step: a count pass over the interior, then an
  apply pass over every cell. The class also holds `Clear`, `Randomise`,
  `SetCell`, the pixel-to-cell mapping, play/pause, the speed index into the
  table of factors of 60, and `Save`/`Load`. Each method is proved against
  the board functions of `LifeRules` and `Persistence`.
- `frames.dfy` (module `Frames`): one frame of input as plain values. This
  covers keys down now and last frame, mouse buttons now and last frame,
  hovered buttons, the cursor, the drag samples, the window-active flag, the
  timing verdict and the random draws. It also holds the play/pause toggle
  both scenes use.
- `painter.dfy` (module `Painter`): painting and erasing at a point and along
  a drag. Every point goes through the interior check. It also shows that a
  rightward drag leaves no gap in the row it paints.
- `sandbox.dfy` (module `SandboxScene`) and `tutorial.dfy` (module
  `TutorialScene`): the scenes' `OnEntry` and per-frame `Update`, each in the
  source's statement order. The invariants they keep are proved: the sandbox
  speed buttons, and the tutorial page buttons and per-page settings.

Environment inputs are parameters:
- The window-active flag and the timing test are booleans in the frame.
- The random draw of `Randomise` is a function `coin(y, x)`.
- Grid files are byte sequences.
- The drag is the sequence of pixel points the scene's loop visits.

The rule text in the tutorial (tutorial.cs:79-80) says a dead cell with three
neighbours "dies". The code at grid.cs:146 makes it live, and the model
follows the code.

## Model

| member | source | states |
|---|---|---|
| LifeRules.Neighbours | life/scripts/engine/sim/grid.cs:126-135 | the live count around an interior cell over its eight Moore neighbours is at most 8 |
| LifeRules.ScanComplete | life/scripts/engine/sim/grid.cs:127-134 | visiting the 3-by-3 window row offset outer, column offset inner, skipping the centre, counts exactly the Moore neighbours |
| LifeRules.Apply | life/scripts/engine/sim/grid.cs:144-146 | the three sequential tests leave a cell live exactly when it was live with 2 or 3 neighbours or dead with exactly 3 |
| LifeRules.CountSeen | life/scripts/engine/sim/grid.cs:122-142 | the count the apply pass reads is the fresh count for interior cells and 0 for the border ring, which the count pass never writes |
| LifeRules.Step | life/scripts/engine/sim/grid.cs:122-148 | one generation: each interior cell follows Conway's rule on counts from the board before the step; every border cell ends dead |
| LifeRules.BorderStaysDead | life/scripts/engine/sim/grid.cs:122-195 | a step kills the whole border ring; clearing, randomising and interior painting keep a dead border dead |
| LifeRules.DeadGridStaysDead | life/scripts/engine/sim/grid.cs:122-148 | a grid with no live cell is unchanged by a step |
| LifeRules.PatternStep | life/scripts/engine/sim/grid.cs:122-148 | a pattern steps to the pattern Conway's rule gives on the interior |
| LifeRules.BlockIsStillLife | life/scripts/scenes/tutorial.cs:83-106 | a 2-by-2 block anywhere in the interior is unchanged by a step |
| LifeRules.HorizontalToVertical | life/scripts/scenes/tutorial.cs:107-121 | a horizontal blinker steps to the vertical one through the same centre |
| LifeRules.VerticalToHorizontal | life/scripts/scenes/tutorial.cs:107-121 | a vertical blinker steps to the horizontal one |
| LifeRules.BlinkerHasPeriodTwo | life/scripts/scenes/tutorial.cs:107-121 | the blinker changes after one step and is restored after two: period 2 |
| Persistence.ReadWrittenInt32 | life/scripts/engine/sim/grid.cs:257-276 | reading a written 32-bit integer gives the integer back |
| Persistence.WriteReadInt32 | life/scripts/engine/sim/grid.cs:257-276 | every four bytes are the writing of the integer they read as |
| Persistence.CellBytesLayout | life/scripts/engine/sim/grid.cs:259-265 | the cell bytes of an h-by-w board are h*w long, cell (y, x) at offset y*w + x |
| Persistence.EncodeLayout | life/scripts/engine/sim/grid.cs:253-268 | a save is 8 + h*w bytes: the width, the height, then cell (y, x) at byte 8 + y*w + x, border included |
| Persistence.LoadStopped | life/scripts/engine/sim/grid.cs:281-287 | data that ends before cell (y, x) leaves the cells before it read and the rest as they were, and reports the end of the stream |
| Persistence.CompleteLoadOverwrites | life/scripts/engine/sim/grid.cs:281-287 | a load that reads every cell leaves the same board whatever the grid held before |
| Persistence.SaveLoadRoundTrip | life/scripts/engine/sim/grid.cs:253-290 | loading a save into a grid of the same size succeeds and restores every cell, border ring included |
| Persistence.MismatchChangesNothing | life/scripts/engine/sim/grid.cs:275-279 | a header naming other dimensions, or a stream cut short in the header, is refused and leaves every cell unchanged |
| Persistence.OtherSizeRefused | life/scripts/engine/sim/grid.cs:278-279 | loading a save of other dimensions always reports the mismatch and changes nothing |
| Simulation.SpeedsAreFactorsOfSixty | life/scripts/engine/sim/grid.cs:43-44 | the speed table holds exactly the factors of 60, each once, in increasing order |
| Simulation.SpeedTableEnds | life/scripts/engine/sim/grid.cs:41-69 | the table has 12 entries from 1 to 60; index 8, where a grid starts, is 15 updates per second |
| Simulation.TruncDiv | life/scripts/engine/sim/grid.cs:207-208 | the C# integer cast of a quotient: truncation toward zero, with its bounds for either sign |
| Simulation.TruncDivRange | life/scripts/engine/sim/grid.cs:216-218 | a truncated quotient is at least 1 exactly when the offset is at least one cell, and below k exactly when the offset is below k cells |
| Simulation.Grid.constructor | life/scripts/engine/sim/grid.cs:55-112 | a new grid has every cell dead with count 0, is playing, and runs at speed index 8 |
| Simulation.Grid.CountAround | life/scripts/engine/sim/grid.cs:126-135 | the window loop over an interior cell returns its Moore neighbour count, between 0 and 8 |
| Simulation.Grid.CountRow | life/scripts/engine/sim/grid.cs:124-136 | one interior row stores each cell's count from the snapshot; nothing else changes |
| Simulation.Grid.CountPass | life/scripts/engine/sim/grid.cs:122-137 | every interior cell stores its count from the board before the pass; no liveness changes and no border count is written |
| Simulation.Grid.ApplyPass | life/scripts/engine/sim/grid.cs:140-148 | every cell, border included, takes the three sequential tests on its stored count |
| Simulation.Grid.Update | life/scripts/engine/sim/grid.cs:114-149 | nothing changes when paused, unfocused or not due; otherwise the board becomes Step of the board before, from counts all taken before any cell changed |
| Simulation.Grid.Clear | life/scripts/engine/sim/grid.cs:186-195 | the board becomes Cleared of the old board; no count changes |
| Simulation.Grid.Randomise | life/scripts/engine/sim/grid.cs:174-183 | the board becomes Randomised of the old board by the draws; no count changes |
| Simulation.Grid.GetCellPosAt | life/scripts/engine/sim/grid.cs:204-210 | a pixel at or past the grid origin lies inside the column and row the result names; one before the origin gives a coordinate of at most 0, rounded toward the origin |
| Simulation.Grid.IsValidCell | life/scripts/engine/sim/grid.cs:204-219 | holds exactly when the cell under the pixel (offset over cell size, truncated toward zero) is interior, and exactly when the pixel lies in the rectangle the interior cells cover |
| Simulation.Grid.SetCell | life/scripts/engine/sim/grid.cs:221-224 | cell (x, y) becomes v and no other cell or count changes |
| Simulation.Grid.IsPlaying | life/scripts/engine/sim/grid.cs:50 | the grid is playing exactly when it is not paused |
| Simulation.Grid.Play | life/scripts/engine/sim/grid.cs:226-229 | the grid is no longer paused; the speed stays |
| Simulation.Grid.Pause | life/scripts/engine/sim/grid.cs:231-234 | the grid is paused; the speed stays |
| Simulation.Grid.Speed | life/scripts/engine/sim/grid.cs:41 | the speed is a table entry that divides 60; it is 1 exactly at index 0 and 60 exactly at the last index |
| Simulation.Grid.DecreaseSpeed | life/scripts/engine/sim/grid.cs:236-239 | the index drops by one unless at 0, where nothing changes; when it moves, the speed falls |
| Simulation.Grid.IncreaseSpeed | life/scripts/engine/sim/grid.cs:241-244 | the index rises by one unless at the last entry, where nothing changes; when it moves, the speed rises |
| Simulation.Grid.SetSpeedIndex | life/scripts/engine/sim/grid.cs:246-249 | an index inside the table is taken and any other is ignored |
| Simulation.Grid.Save | life/scripts/engine/sim/grid.cs:253-268 | the bytes written are Encode of the grid's dimensions and board |
| Simulation.Grid.Load | life/scripts/engine/sim/grid.cs:271-290 | the outcome is LoadResult and the board is LoadedBoard: a mismatch changes no cell; otherwise cells are read row by row, border included |
| Frames.Toggled | life/scripts/scenes/sandbox.cs:141-146 | a Space press flips the play state exactly once; the state changes exactly when the play control fires on a paused grid or the pause control on a playing one |
| Frames.SharedControlToggles | life/scripts/scenes/sandbox.cs:75-146 | with play and pause over one rectangle, as both scenes build them, a click ending there or a Space press always flips the play state |
| Painter.Targets | life/scripts/scenes/sandbox.cs:195-205 | every cell a run of samples lands on is interior, and every sample over an interior cell lands on its cell |
| Painter.PaintPoint | life/scripts/scenes/sandbox.cs:177-186 | the cell under the cursor takes the value only if it is interior; nothing else changes |
| Painter.PaintStroke | life/scripts/scenes/sandbox.cs:187-206 | the cells under the interior samples of the drag take the value; nothing else changes |
| Painter.FrameEdits | life/scripts/scenes/sandbox.cs:177-237 | after a frame's paint and erase blocks, an erased cell is dead even if also painted, a painted cell is live, and every other cell and the whole border ring keep their values |
| Painter.PaintFrame | life/scripts/scenes/sandbox.cs:177-237 | the four blocks, in order, turn the board into FrameEdits of it |
| Painter.DragLeavesNoGap | life/scripts/scenes/sandbox.cs:187-206 | a rightward drag that paints two cells of a row paints every cell between them |
| SandboxScene.Commanded | life/scripts/scenes/sandbox.cs:148-156 | clear and randomise touch only the interior; a randomise overrides a clear in the same frame; the border ring is kept |
| SandboxScene.SpeedAfter | life/scripts/scenes/sandbox.cs:158-173 | the speed buttons keep the index inside the table and leave it alone when neither fires |
| SandboxScene.Sandbox.constructor | life/scripts/scenes/sandbox.cs:53-122 | a new sandbox has a dead 78-by-38 grid, playing at speed index 8, with both speed buttons enabled |
| SandboxScene.Sandbox.OnEntry | life/scripts/scenes/sandbox.cs:124-131 | entry leaves the grid playing with its interior cleared, speed index 8, and both speed buttons enabled |
| SandboxScene.Sandbox.ChangeSpeed | life/scripts/scenes/sandbox.cs:158-173 | faster is disabled exactly at speed 60 and slower exactly at speed 1, before and after |
| SandboxScene.Sandbox.Commands | life/scripts/scenes/sandbox.cs:140-156 | the play state is toggled once and the board becomes Commanded of the old one |
| SandboxScene.Sandbox.Update | life/scripts/scenes/sandbox.cs:133-241 | one frame keeps the speed buttons agreeing with the speed; the step, when it runs, acts on the board with this frame's clear, randomise, paint and erase already applied |
| TutorialScene.FramePhase | life/scripts/scenes/tutorial.cs:289-304 | the page stays in 0..6, moves by at most one, and stays put when neither page button fires |
| TutorialScene.Tutorial.constructor | life/scripts/scenes/tutorial.cs:200-261 | a new tutorial has a dead 38-by-38 grid on page 0 with every button enabled |
| TutorialScene.Tutorial.DisablePlayPause | life/scripts/scenes/tutorial.cs:483-487 | both play and pause are disabled |
| TutorialScene.Tutorial.EnablePlayPause | life/scripts/scenes/tutorial.cs:489-493 | both play and pause are enabled |
| TutorialScene.Tutorial.LoadGrid | life/scripts/scenes/tutorial.cs:436 | loading a bundled 38-by-38 file replaces every cell with the file's board |
| TutorialScene.Tutorial.OnPhaseChange | life/scripts/scenes/tutorial.cs:427-481 | each page sets its table row: speed index 3,1,1,3,5,5,6; playing on pages 0, 1, 6; drawing on pages 0, 1, 6; play/pause locked on pages 0, 1; and the page's grid file |
| TutorialScene.Tutorial.OnEntry | life/scripts/scenes/tutorial.cs:263-269 | entry is page 0 with previous disabled, next enabled and page 0's settings |
| TutorialScene.Tutorial.Reset | life/scripts/scenes/tutorial.cs:281-282 | F5 or reset re-applies the current page's settings without changing the page |
| TutorialScene.Tutorial.NextPage | life/scripts/scenes/tutorial.cs:289-296 | next moves on unless on page 6, disables next on reaching it, enables previous, and applies the new page |
| TutorialScene.Tutorial.PrevPage | life/scripts/scenes/tutorial.cs:297-304 | previous moves back unless on page 0, disables previous on reaching it, enables next, and applies the new page |
| TutorialScene.Tutorial.TurnPages | life/scripts/scenes/tutorial.cs:288-304 | the page becomes FramePhase of the old one, and the board and play state are the new page's exactly when a page button turned it |
| TutorialScene.Tutorial.PlayPause | life/scripts/scenes/tutorial.cs:306-312 | play and pause act only when their buttons are enabled, so on pages 0 and 1 the play state cannot change |
| TutorialScene.Tutorial.Controls | life/scripts/scenes/tutorial.cs:276-312 | the sandbox is requested only on page 6 (and wins over back); the buttons keep the page and its settings consistent |
| TutorialScene.Tutorial.StepThenControls | life/scripts/scenes/tutorial.cs:271-312 | the generation runs on the board as it was before this frame's buttons |
| TutorialScene.Tutorial.Update | life/scripts/scenes/tutorial.cs:271-376 | one frame keeps the page in 0..6, the page buttons disabled exactly at the ends, and the page's settings; paint and erase edits happen only on pages 0, 1 and 6, after this frame's generation |

## Left out

- Rendering is not part of this model: `Grid.Draw`, the scenes' `Draw` methods and the tutorial texts, and everything in drawing.cs.
- Scene fades, the options and configuration screens, the entry and exit animations, and the title and startup scenes are not part of this model. They are presentation, float-valued preferences or wiring.
- The timing test of `Grid.Update` is a floating-point remainder of the total time by the update period, compared with the frame time. It becomes the boolean `tickDue` of the frame, so the model says nothing about how often a generation fires at a given speed.
- Input is not modelled at the level of MonoGame keyboard and mouse states. The model keeps the key and button edges, the hovered buttons, and the window-active flag. Hover's float padding is not part of this model.
- The drag direction `difference / distance` and the positions `lastpos + dir * i` are floating point. A drag is the given sequence of integer pixel points the loop visits. A zero-length drag is the empty sequence, since the loop does not run. Fractional sample positions and their truncation are not modelled. Only the rightward drag, whose samples are exact, is derived.
- `Randomise` draws `rnd.Next(2) == 0` for each interior cell. Each draw becomes `coin(y, x)`, any function of the cell.
- File access in `Save` and `Load` (`File.Open`, the file names and the asset directory) is not modelled; only the byte layout is. The model takes the Int32 encoding to be 4-byte little-endian two's complement, and a boolean to be one byte, written 1 or 0 and read as true when nonzero.
- `Load` on a size mismatch throws. The model returns `SizeMismatch` with no cell changed. A stream that ends early becomes `EndOfStream`: the cells read so far are kept, as when .NET throws partway through.
- `Cell` is not shown in the source. The model takes it to be a value type whose neighbour count starts at 0, as `new Cell[height, width]` and the field writes at grid.cs:192 and grid.cs:135 imply.
- The tutorial's grid files are given to the scene as a map from name to bytes. Each must be a complete 38-by-38 save, since a bad file would throw out of the scene.
- Button objects are reduced to their `IsDisabled` flags, held as fields of the scene. A click on a disabled sandbox speed button still reaches the grid, as in the source, since `ClickUp` ignores `IsDisabled`.
- Frames.Toggled: a frame lists its hovered buttons freely, so it can hover play without pause, which the shared rectangle of the two buttons (sandbox.cs:75-86, tutorial.cs:233-244) rules out; `SharedControlToggles` states the toggle under the source's geometry.
- Simulation.Grid.SetCell: requires an in-bounds cell, where the C# array access would throw out of range; every caller first checks `IsValidCell`, so the throw cannot happen.
- Scene changes are reduced to the scene asked for. When a frame asks twice, the later request wins, as `ChangeScene` overwrites the target.
