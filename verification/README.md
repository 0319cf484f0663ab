# NEXUS mission-control dashboard: rover navigation and event log

This project models the discrete logic of the NEXUS dashboard (`App.jsx`).
The model has three parts:

- **The rover navigation panel** (`RoverSystem`).
  - The panel shows an N x N grid. N is 5 in the dashboard; the model takes any N > 0.
  - Cells are numbered row by row (module `Grid`).
  - A click on *START MISSION* plans an L-shaped walk: right along the rover's row to the target column, then down that column to the target row (module `RoverPath`).
  - A movement interval then moves the rover one cell per firing. When the path is used up, the panel turns idle (module `RoverMission`).
  - The walk never moves left or up. When the target lies left of the rover's column, the column phase is empty. When it lies above the rover's row, the row phase is empty. The model keeps this behaviour and proves it.
- **The event log** (`addLog`). Adding an entry keeps the five newest earlier entries and appends the new one. The log therefore holds at most six lines (module `MissionLog`).
- **The coordinate readout** under the grid: the row and column of the rover's cell.

The path builder and the movement interval update state step by step. They are modelled imperatively:

- `CalculatePath` has the two `while` loops over a mutable row and column.
- `RoverSystem` is a class. Its `Tick` method advances the step counter and the busy flag.

`CalculatePath` is proved equal to `Plan`, an independent definition of the walk as two sequence comprehensions. All walk properties are proved about `Plan`. The log update is a pure function, as in the source.

Cell indices are natural numbers. In the dashboard, the rover and target positions always lie in `[0, 25)`. For such values, JavaScript's `Math.floor(i / N)` and `i % N` agree with Dafny's `/` and `%`.

## Model

| member | source | states |
|---|---|---|
| Grid.Row | App.jsx:147-149 | the row of a cell is the floor quotient: `r*N <= i < r*N + N` |
| Grid.Col | App.jsx:148-150 | the column is below N, and row times N plus column gives back the index |
| Grid.DecodeIndex | App.jsx:154-155 | a cell encoded as `r*N + c` with `c < N` decodes to row `r` and column `c` |
| Grid.EncodeDecode | App.jsx:147-148 | encoding the decoded row and column of any index gives back the index |
| Grid.InGridIffRow | App.jsx:190 | an index is one of the N*N grid cells exactly when its row is below N |
| Grid.IndexInGrid | App.jsx:154-155 | a row and a column both below N give a cell of the grid |
| RoverPath.CalculatePath | App.jsx:144-155 | the two loops build exactly the walk `Plan(start, target, N)` |
| RoverPath.PlanLength | App.jsx:153-155 | the walk's length is the number of column steps plus the number of row steps; when the target is down-right, it is `(tc - c) + (tr - r)` |
| RoverPath.PlanEmptyIff | App.jsx:154-155 | the walk is empty iff the target is neither right of nor below the start; start = target gives `[]` |
| RoverPath.PlanEndsAtReach | App.jsx:153-155 | a non-empty walk ends at the cell (max row, max column); for an empty walk, the start is that cell |
| RoverPath.ReachIsTargetIff | App.jsx:147-155 | the walk's end is the target iff the target is down-right of the start; then a non-empty walk ends at the target |
| RoverPath.PlanExcludesStart | App.jsx:153-155 | the start cell never appears in the walk |
| RoverPath.PlanInGrid | App.jsx:153-155 | when start and target are grid cells, every cell of the walk is in `[0, N*N)` |
| RoverPath.PlanIsLShaped | App.jsx:154-155 | the column-phase cells lie in the start row; the row-phase cells lie in column `max(col, targetCol)` |
| RoverPath.PlanAdjacent | App.jsx:154-155 | in `start :: walk`, each cell is one step right of or one step below the one before |
| RoverPath.CornerToCorner | App.jsx:133-135 | the walk from cell 0 to cell N*N-1 has `2(N-1)` cells and ends at N*N-1 |
| RoverPath.DashboardExamples | App.jsx:147-155 | for N = 5: 0 to 24 gives `[1,2,3,4,9,14,19,24]`, 6 to 8 gives `[7,8]`, 24 to 0 gives `[]` |
| RoverMission.RoverSystem.constructor | App.jsx:133-137 | initially the rover is at 0, the target at N*N-1, the panel idle, the path empty |
| RoverMission.RoverSystem.StartMission | App.jsx:140-160 | the start button's guard (line 182): a mission starts iff the panel is idle and the rover is not on the target; it then plans from the rover's cell, resets the step counter and turns busy; otherwise nothing changes |
| RoverMission.RoverSystem.Tick | App.jsx:161-168 | while steps remain, the rover moves to `path[step]` and the counter advances; otherwise the panel turns idle and the rover stays; one firing fewer remains either way |
| RoverMission.RoverSystem.RunInterval | App.jsx:160-169 | the interval fires `|path| - step + 1` times, ends idle, and leaves the rover at the walk's end |
| RoverMission.RoverSystem.CompletedMissionAtReach | App.jsx:160-168 | after a planned walk is played out, the rover is at the walk's end; that is the target when the target was down-right of the start |
| RoverMission.RoverSystem.Coord | App.jsx:209 | the displayed row and column are both below N and encode the rover's cell |
| RoverMission.FirstMission | App.jsx:182 | from the initial panel, one mission ends at the target after `2(N-1)+1` firings; on a 1x1 grid the button stays disabled |
| MissionLog.AddLog | App.jsx:295-299 | the new log has `min(|prev|, 5) + 1` entries; the new entry is last, after the newest `min(|prev|, 5)` earlier entries in their order |
| MissionLog.AddLogIsNewest | App.jsx:298 | one update leaves the newest `min(|prev| + 1, 6)` entries of `prev + [entry]` |
| MissionLog.AddAllKeepsNewest | App.jsx:295-299 | after one or more updates, the log is the newest `min(total, 6)` entries ever logged, oldest first |
| MissionLog.LogStaysBounded | App.jsx:296-298 | a log of at most six lines keeps `min(|prev| + k, 6)` lines after k updates |
| MissionLog.RebootAfterStart | App.jsx:302-307 | the reboot's two lines after the three initial ones give all five lines, in order |

## Left out

- The particle-sphere renderer (App.jsx:68-111) is left out. It is floating-point trigonometry drawn on a canvas once per animation frame.
- The simulated telemetry is left out: oxygen, temperature, energy, sparkline history and random solar-flare alerts (App.jsx:223, 240, 272-292). They come from `Math.random` and floating-point drift.
- Timers are left out: the 800 ms planning delay, the 300 ms interval, the one-second clock and interval cleanup on unmount. Each interval firing is one `Tick`.
- StartMission: does not model the 800 ms between the click and the planning. In that window the panel is busy and still shows the previous path. Nothing else can change then, because the button is disabled.
- Log identifiers (`Date.now()` plus a random base-36 suffix) are parameters. Their uniqueness is not modelled.
- `handleReboot` is only partly modelled: its oxygen and energy resets are floating-point telemetry. Only its two log lines are modelled.
- The target never moves: the dashboard never calls its setter. For N = 5 the target is 24 (App.jsx:135); the model generalises this to N*N-1.
- Negative cell indices are not modelled. The dashboard never produces them, and for them `%` in JavaScript differs from Dafny's.
- All rendering is left out: the grid cells' highlighting, modals, panels, icons and animation.
