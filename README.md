# Pacman maze game: a verified model of its rules

The game is a grid maze. A player token eats pills and ghosts chase it. The
model follows `main.py` and is split into four modules:

- **Maze** (`maze.dfy`) holds the level grid. It is a rectangular table of
  tags: `0` empty, `1` wall, `2` pill, and `3` for the start marker, which is
  walkable. The module defines which cells a ghost may step to next, and
  walks and shortest walks along that relation.
- **Search** (`search.dfy`) holds the invariants of the two searches a ghost
  runs. Both keep discovery-parent links, a layered queue (breadth-first
  search) or a stack (depth-first search), and the set of visited cells. The
  module also has the lemmas that make breadth-first search find a shortest
  walk and make both searches find every reachable cell.
- **Pursuer** (`pursuer.dfy`) is the `Ghost` class. A ghost has a mutable
  position and the level grid it searches. The class provides
  `get_neighbors`, `bfs`, `dfs`, `move_towards`, and the interception policy
  that `move_ghosts` gives every ghost but the first.
- **Pacman** (`game.dfy`) is the `Game` class. Its state is:
  - the level list, the current level index and the live level;
  - the player's cell and heading;
  - the ghost roster;
  - the two cadence counters.

  It also has the value-level rules: player movement, pill detection, spawn
  candidates and the player prediction.

The level grid is an `array2<int>`, and one object is shared by several
holders:

- the entry of the level list;
- the game's live level;
- every ghost of that level.

This mirrors the program, where they are the same Python list. So eating a
pill (`Pacman.EatPill`) writes into that shared grid.

## Model

| member | source | states |
|---|---|---|
| Maze.NeighborsSpec | main.py:20-30 | the neighbour list of a cell holds at most four cells, exactly the open cells one unit step away, never the cell itself, in the order right, down, left, up |
| Pursuer.Ghost.constructor | main.py:16-18 | a new ghost stands on its start cell and searches the given level grid (the same object, not a copy) |
| Pursuer.Ghost.GetNeighbors | main.py:20-30 | the returned list contains exactly the in-grid non-wall cells one unit step from pos, in offset order |
| Pursuer.AddNeighbors | main.py:44-48 | the neighbour loop of a search takes the frontier to the state the reference scan `Scan` describes: unvisited neighbours are appended, marked visited and parented to the current cell |
| Pursuer.ExpandHead | main.py:38-48 | dequeuing a non-target head and enqueuing its new neighbours keeps the breadth-first invariant (parent tree, layered queue, closed finished layers) and either shrinks the unvisited cells or only shortens the queue |
| Pursuer.ExpandTop | main.py:70-80 | popping a non-target top and pushing its new neighbours keeps the depth-first invariant and either shrinks the unvisited cells or only shortens the stack |
| Search.BfsHeadShortest | main.py:38-42 | when the target reaches the head of the queue it has a parent entry, and every walk from the start to it has more cells than its depth |
| Search.BfsExhausted | main.py:38-48 | when the queue empties without meeting the target, the target has no parent entry and is unreachable |
| Search.DfsExhausted | main.py:70-80 | when the stack empties without meeting the target, the target has no parent entry and is unreachable |
| Search.Reverse | main.py:56 | the reversed list has the same length, with element i taken from position length-1-i |
| Pursuer.RebuildPath | main.py:50-57 | following parent links from the target yields KeyError(target) when the target was never discovered, and otherwise a walk from the start to the target with depth+1 cells |
| Pursuer.Ghost.Bfs | main.py:32-57 | the path is a shortest walk from the ghost to the target; KeyError(target) is raised exactly when the target is unreachable |
| Pursuer.Ghost.Dfs | main.py:64-89 | the path is a walk from the ghost to the target; KeyError(target) is raised exactly when the target is unreachable |
| Pursuer.Ghost.MoveTowards | main.py:59-62 | succeeds exactly when the target is reachable; the ghost then stays on the target if it is already there, else moves to a neighbour that starts a shortest walk to the target; on KeyError it does not move |
| Pursuer.ChaseAdjacent | main.py:59-62 | a chase step towards a neighbouring cell lands on that cell |
| Pursuer.ChaseCloser | main.py:59-62 | a chase step from a cell other than the target reduces the shortest distance to the target by exactly one |
| Pursuer.Ghost.Intercept | main.py:225-230 | the ghost chases the predicted cell when it is a neighbour, else the player; it succeeds exactly when that target is reachable, and it lands on the predicted cell when that cell is a neighbour |
| Pacman.Delta | main.py:203-210 | each heading is a unit offset |
| Pacman.PacmanStep | main.py:200-215 | the token either keeps its cell or moves to an open cell one unit step away; a move is exactly the heading's unit offset; it moves to that cell whenever it is open, and keeps its cell when there is no heading or the cell is a wall or outside the grid |
| Pacman.EatPill | main.py:217-218 | a pill on the cell becomes empty and no other cell changes; pill cells lose exactly that cell and the count drops by at most one; eating twice is eating once |
| Pacman.Game.MovePacman | main.py:200-218 | the token moves as `PacmanStep` says; a move eats the pill on the destination, the pill cells lose it and nothing else in the grid changes; without a move the grid is untouched (`GridAfterMove`) |
| Pacman.RowHasPill | main.py:170 | true exactly when the row holds a pill from the given column on |
| Pacman.RowsHavePill | main.py:169-172 | true exactly when some cell from the given row on holds a pill |
| Pacman.CheckPills | main.py:168-172 | true exactly when the set of pill cells of the grid is not empty |
| Pacman.RowCandidates | main.py:162-165 | lists exactly the pill or empty cells of the row, from the given column on, other than the player's cell |
| Pacman.SpawnCandidates | main.py:160-165 | lists exactly the pill or empty in-grid cells, from the given row on, other than the player's cell |
| Pacman.Game.FindSpawnPosition | main.py:159-166 | the chosen cell is a candidate when one exists, else (1, 1) |
| Pacman.Game.SpawnGhosts | main.py:151-157 | one ghost on the first two levels and two afterwards; each is new, distinct from the others, searches the live level and stands on a spawn spot |
| Pacman.Game.constructor | main.py:141-149 | level 0 is live, the player is on (1, 1) with no heading, both counters are zero, and there is one fresh ghost on a spawn spot |
| Pacman.Clamp | main.py:243-244 | the result lies in [lo, hi], equals x when x is inside, and is the nearer bound otherwise |
| Pacman.PredictPacmanPosition | main.py:232-249 | as written: the prediction is either the player's cell or a cell (a, b) with a below the row length, b below the row count and no wall at [b][a]; without a heading, and with the player's row index below the row length and its column index below the row count, the cell is unchanged |
| Pacman.PredictAxisSwap | main.py:234-246 | for a player heading up with an open cell above and with a row index below the row length, the prediction as written misses that cell and the corrected prediction finds it |
| Pacman.PredictIntended | main.py:232-249 | corrected: the prediction is the player's cell or an open cell, and it is the cell one step along the heading whenever that cell is open |
| Pacman.GhostTarget | main.py:222-230 | the first ghost targets the player; a later ghost targets the player or a neighbour; with the program's prediction (`corrected` false) a later ghost whose predicted cell is a neighbour targets that cell; with the corrected prediction it targets the cell the player is heading into when that cell is a neighbour |
| Pacman.MoveGhost | main.py:221-230 | one ghost's turn (`move_towards` on the player for ghost 0, the neighbour test on `predict_pacman_position(steps=1)` for the others) succeeds exactly when its target is reachable, then takes a chase step towards it; on KeyError the ghost keeps its cell |
| Pacman.Game.MoveGhosts | main.py:220-230 | ghosts move in roster order: the first `moved` took their chase steps towards their targets and the rest kept their cells; if `moved` falls short of the roster, ghost `moved` could not reach its target |
| Pacman.InterceptLands | main.py:225-228 | with the program's prediction, after `move_ghosts` a later ghost whose predicted player cell was one of its neighbours stands on that cell |
| Pacman.InterceptHeading | main.py:225-228 | with the corrected prediction, after `move_ghosts` a later ghost that stood next to the cell the player is heading into stands on it |
| Pacman.ChaserCloses | main.py:222-223 | after `move_ghosts`, a ghost that chased the player from another cell is one move closer to it |
| Pacman.AnyGhostOn | main.py:297 | true exactly when some ghost of the list stands on the cell |
| Pacman.Game.IsGameOver | main.py:296-297 | true exactly when some ghost of the roster stands on the player's cell |
| Pacman.Game.PacmanTick | main.py:267-270 | the player counter advances and wraps to 0 on reaching 300; the token moves as `PacmanStep` says on those frames and stays put on the others; the grid changes only by the pill eaten on a move |
| Pacman.Game.GhostTick | main.py:272-275 | the ghost counter advances and wraps to 0 on reaching 500, unless a search raised KeyError, which leaves it at 500 or beyond; before 500 no ghost moves; on reaching it the ghosts move as `move_ghosts` does, and the tick crashes exactly when some ghost could not reach its target |
| Pacman.Game.MoveActors | main.py:254-275 | the last arrow key becomes the heading, then the player and the ghost cadences run as `PacmanTick` and `GhostTick` say, the ghosts chasing the player's new cell |
| Pacman.Game.EndFrame | main.py:277-290 | a level without pills advances to the next one (the player back on (1, 1), new ghosts by the count rule) or ends the game after the last; the game stops exactly when the levels are used up or a ghost is on the player |
| Pacman.Game.Frame | main.py:254-290 | one pass of the run loop keeps the game invariant; it sets the heading from the last arrow key; it states the player's cell after its cadence, the grid change, and the ghosts' cells before and after their cadence; it then makes the level transitions and stop conditions of `run`; when the level does not advance, the player stays on that cell |

## Left out

- Drawing, the window, pygame initialisation, `pygame.quit` and the `print`
  messages have no effect on the game state.
- Event polling is left out. `Pacman.Game.Frame` takes the last arrow key of
  the frame as an optional heading.
- The quit event is left out: closing the window ends `run` outside the
  model.
- The pixel constants are left out.
- The four level tables of `__init__` are left out. The constructor takes the
  level list as a parameter and requires every level to be non-empty.
- The ragged-row case is not modelled. Python's level lists need not be
  rectangular, but `array2` is. Every level table of the program is
  rectangular, and the program reads the row length from row 0.
- `random.choice` is modelled as an arbitrary choice among the candidates.
  Uniformity is not modelled.
- The `run` loop itself is not modelled. `Pacman.Game.Frame` models one pass
  through it, and the loop repeats that pass until the outcome is not
  `Running`.
- Pacman.Game.GhostTick: the program increments the ghost counter before
  the ghosts move, and the model writes it after they move. The ghosts'
  moves do not read the counter, so the states after the tick are the same.
- Pacman.PredictPacmanPosition, Pacman.PredictAxisSwap: "no heading keeps
  the cell" and "heading up misses the open cell above" hold only when the
  player's row index is below the row length, and for the former also its
  column index below the row count. Otherwise the swapped clamp can move the
  cell, for example from (0, 2) to (0, 0) on a 1×3 grid without walls. On the
  program's four levels, which are bordered by walls, this never changes the
  outcome.
- Ghost positions are cells of any value. The program never checks that a
  ghost stands inside the grid, and neither does the model.

Three behaviours of the game are easy to assume but are not what `main.py`
does. The model follows the code:

- An unreachable target does not leave the ghost silently in place.
  `move_towards` raises KeyError from `parent[target]`. The model returns
  `KeyError` (Bfs, Dfs) or `false` (MoveTowards, Intercept, MoveGhost), and
  `Frame` then ends with `Crashed`, because the exception ends the program.
- The next level is not a fresh copy of its table. It is the entry of the
  level list itself.
- Not every non-wall cell is a spawn candidate, only pill and empty cells.
  The start marker 3 is excluded, although it is walkable.

## Findings

| source | as written | input that shows it | evidently intended | confidence | as-written member | corrected member |
|---|---|---|---|---|---|---|
| main.py:234-246 | Up and Down change the second (column) coordinate, Left and Right the first (row) coordinate. The first coordinate is clamped by the row length, the second by the row count, and the wall test reads `level[second][first]`. The program stores cells as (row, column) everywhere else. | Level 0, player on (2, 1) heading UP. The cell above, (1, 1), is the open start marker. The program computes (2, 0), finds a wall at `level[0][2]` and predicts (2, 1). | The cell one step along the heading in (row, column) terms, clamped to the grid, or the player's cell when that is a wall; here (1, 1). | not executed; high | Pacman.PredictPacmanPosition, Pacman.PredictAxisSwap | Pacman.PredictIntended |

The ghost rules take a switch `corrected`, from `Pacman.GhostTarget` and
`Pacman.MoveGhost` up to `Pacman.Game.Frame`. With `corrected` false they use
`PredictPacmanPosition` and move the ghosts as the program does
(`Pacman.InterceptLands`). With it true they use `PredictIntended`, and a
later ghost next to the cell the player is heading into lands there
(`Pacman.InterceptHeading`).
