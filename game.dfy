/** The game state machine: the player token, its heading, the pills of the
    live level, the ghost roster, the two move cadences and the level
    sequence. */
module Pacman {
  import opened Maze
  import opened Pursuer

  /** A heading of the player token. */
  datatype Direction = Up | Down | Left | Right

  /** The unit offset of a heading in (row, column) terms, as move_pacman
      applies it. */
  function Delta(d: Direction): (r: Cell)
    ensures IsUnitStep((0, 0), r)
  {
    match d
    case Up => (-1, 0)
    case Down => (1, 0)
    case Left => (0, -1)
    case Right => (0, 1)
  }

  /** Where move_pacman puts the token: the cell one unit step along the
      heading when that cell is inside the grid and not a wall, else where it
      already stands. */
  function PacmanStep(level: array2<int>, pos: Cell, dir: Option<Direction>): (r: Cell)
    reads level
    ensures r == pos || (dir.Some? && Edge(level, pos, r))
    ensures r != pos ==> dir.Some? && r == Step(pos, Delta(dir.value))
    ensures dir.Some? && Open(level, Step(pos, Delta(dir.value))) ==> r == Step(pos, Delta(dir.value))
    ensures dir.None? || !Open(level, Step(pos, Delta(dir.value))) ==> r == pos
  {
    if dir.Some? && Open(level, Step(pos, Delta(dir.value))) then Step(pos, Delta(dir.value)) else pos
  }

  /** The cells of a level that still hold a pill. */
  ghost function PillCells(level: array2<int>): set<Cell>
    reads level
  {
    set r, c | 0 <= r < level.Length0 && 0 <= c < level.Length1 && level[r, c] == ItemPill :: (r, c)
  }

  /** The pill cells are the in-grid cells tagged ItemPill. */
  lemma PillCellsMembers(level: array2<int>)
    ensures forall r, c :: 0 <= r < level.Length0 && 0 <= c < level.Length1 ==>
              ((r, c) in PillCells(level) <==> level[r, c] == ItemPill)
    ensures forall q :: q in PillCells(level) ==> InBounds(level, q) && level[q.0, q.1] == ItemPill
  {
  }

  /** Removing one cell from a set of cells shrinks it by at most one. */
  lemma RemoveOne(cells: set<Cell>, x: Cell)
    ensures |cells - {x}| >= |cells| - 1
    ensures x in cells ==> |cells - {x}| == |cells| - 1
  {
  }

  /** The eating half of move_pacman: a pill on p becomes an empty cell;
      every other cell keeps its tag, so p leaves the pill cells and the
      pill count drops by at most one. Afterwards p holds no pill, and on a
      cell without a pill the call changes nothing, so eating twice is
      eating once. */
  method EatPill(level: array2<int>, p: Cell)
    requires InBounds(level, p)
    modifies level
    ensures forall r, c :: 0 <= r < level.Length0 && 0 <= c < level.Length1 ==>
              level[r, c] == if (r, c) == p && old(level[r, c]) == ItemPill then ItemEmpty else old(level[r, c])
    ensures PillCells(level) == old(PillCells(level)) - {p}
    ensures |old(PillCells(level))| - 1 <= |PillCells(level)| <= |old(PillCells(level))|
    ensures level[p.0, p.1] != ItemPill
    ensures old(level[p.0, p.1]) != ItemPill ==> unchanged(level)
  {
    if level[p.0, p.1] == ItemPill {
      level[p.0, p.1] := ItemEmpty;
    }
    PillCellsMembers(level);
    forall q | q in old(PillCells(level)) - {p} ensures q in PillCells(level) {
      assert q == (q.0, q.1);
    }
    forall q | q in PillCells(level) ensures q in old(PillCells(level)) - {p} {
      assert q == (q.0, q.1);
    }
    RemoveOne(old(PillCells(level)), p);
  }

  /** The grid effect of a player move from `from` to `to`: when the token
      moved, a pill on `to` became an empty cell; every other cell, and every
      cell when the token did not move, kept its tag. */
  twostate predicate GridAfterMove(grid: array2<int>, from: Cell, to: Cell)
    reads grid
  {
    forall r, c :: 0 <= r < grid.Length0 && 0 <= c < grid.Length1 ==>
      grid[r, c] == if to != from && (r, c) == to && old(grid[r, c]) == ItemPill then ItemEmpty else old(grid[r, c])
  }

  /** `ITEM_PILL in row` for row r, scanning the columns from c on. */
  function RowHasPill(level: array2<int>, r: nat, c: nat): (b: bool)
    requires r < level.Length0 && c <= level.Length1
    reads level
    decreases level.Length1 - c
    ensures b <==> exists c' :: c <= c' < level.Length1 && level[r, c'] == ItemPill
  {
    if c == level.Length1 then false
    else level[r, c] == ItemPill || RowHasPill(level, r, c + 1)
  }

  /** The row loop of check_pills from row r on. */
  function RowsHavePill(level: array2<int>, r: nat): (b: bool)
    requires r <= level.Length0
    reads level
    decreases level.Length0 - r
    ensures b <==> exists r', c' :: r <= r' < level.Length0 && 0 <= c' < level.Length1 && level[r', c'] == ItemPill
  {
    if r == level.Length0 then false
    else RowHasPill(level, r, 0) || RowsHavePill(level, r + 1)
  }

  /** check_pills: some cell of the level still holds a pill. */
  function CheckPills(level: array2<int>): (b: bool)
    reads level
    ensures b <==> PillCells(level) != {}
  {
    PillCellsMembers(level);
    RowsHavePill(level, 0)
  }

  /** A cell find_spawn_position may pick: inside the grid, holding a pill or
      nothing (a wall and the start marker 3 are both excluded), and not the
      player's cell. */
  predicate Spawnable(level: array2<int>, pacman: Cell, q: Cell)
    reads level
  {
    InBounds(level, q) && (level[q.0, q.1] == ItemPill || level[q.0, q.1] == ItemEmpty) && q != pacman
  }

  /** The candidates of row r from column c on, left to right. */
  function RowCandidates(level: array2<int>, pacman: Cell, r: nat, c: nat): (cs: seq<Cell>)
    requires r < level.Length0 && c <= level.Length1
    reads level
    decreases level.Length1 - c
    ensures forall q :: q in cs <==> Spawnable(level, pacman, q) && q.0 == r && q.1 >= c
  {
    if c == level.Length1 then []
    else
      var rest := RowCandidates(level, pacman, r, c + 1);
      if Spawnable(level, pacman, (r, c)) then [(r, c)] + rest else rest
  }

  /** possible_positions of find_spawn_position, row by row from row r on. */
  function SpawnCandidates(level: array2<int>, pacman: Cell, r: nat): (cs: seq<Cell>)
    requires r <= level.Length0
    reads level
    decreases level.Length0 - r
    ensures forall q :: q in cs <==> Spawnable(level, pacman, q) && q.0 >= r
  {
    if r == level.Length0 then []
    else RowCandidates(level, pacman, r, 0) + SpawnCandidates(level, pacman, r + 1)
  }

  /** Where find_spawn_position may put a ghost: any candidate cell, or (1, 1)
      when there is none. */
  ghost predicate SpawnSpot(level: array2<int>, pacman: Cell, p: Cell)
    reads level
  {
    if exists q :: Spawnable(level, pacman, q) then Spawnable(level, pacman, p) else p == (1, 1)
  }

  /** Clamp x into [lo, hi], as max(lo, min(x, hi)). */
  function Clamp(x: int, lo: int, hi: int): (r: int)
    requires lo <= hi
    ensures lo <= r <= hi
    ensures lo <= x <= hi ==> r == x
    ensures x < lo ==> r == lo
    ensures hi < x ==> r == hi
  {
    if x > hi then hi else if x < lo then lo else x
  }

  /** predict_pacman_position as the program has it: Up and Down change the
      second coordinate, Left and Right the first; the first coordinate is
      clamped by the row length and the second by the row count, and the wall
      test reads level[second][first]. A wall there yields the current cell. */
  function PredictPacmanPosition(level: array2<int>, pos: Cell, dir: Option<Direction>, steps: int): (r: Cell)
    requires level.Length0 > 0 && level.Length1 > 0
    reads level
    ensures r == pos || (0 <= r.0 < level.Length1 && 0 <= r.1 < level.Length0 && level[r.1, r.0] != ItemWall)
    ensures dir.None? && 0 <= pos.0 < level.Length1 && 0 <= pos.1 < level.Length0 ==> r == pos
  {
    var p := match dir
      case None => pos
      case Some(Up) => (pos.0, pos.1 - steps)
      case Some(Down) => (pos.0, pos.1 + steps)
      case Some(Left) => (pos.0 - steps, pos.1)
      case Some(Right) => (pos.0 + steps, pos.1);
    var q := (Clamp(p.0, 0, level.Length1 - 1), Clamp(p.1, 0, level.Length0 - 1));
    if level[q.1, q.0] == ItemWall then pos else q
  }

  /** The evidently intended prediction: the heading's (row, column) offset,
      the row clamped by the row count and the column by the row length, and
      the wall test on that cell. */
  function PredictIntended(level: array2<int>, pos: Cell, dir: Option<Direction>, steps: int): (r: Cell)
    requires level.Length0 > 0 && level.Length1 > 0
    reads level
    ensures r == pos || Open(level, r)
    ensures dir.Some? && steps == 1 && Open(level, Step(pos, Delta(dir.value))) ==> r == Step(pos, Delta(dir.value))
  {
    var p := if dir.None? then pos else (pos.0 + steps * Delta(dir.value).0, pos.1 + steps * Delta(dir.value).1);
    var q := (Clamp(p.0, 0, level.Length0 - 1), Clamp(p.1, 0, level.Length1 - 1));
    if level[q.0, q.1] == ItemWall then pos else q
  }

  /** The axis swap: a player heading up from (r, c) with the cell above open
      is predicted elsewhere than that cell, because the program moves the
      column instead of the row. */
  lemma PredictAxisSwap(level: array2<int>, pos: Cell)
    requires InBounds(level, pos) && pos.0 < level.Length1
    requires Open(level, Step(pos, Delta(Up)))
    ensures PredictIntended(level, pos, Some(Up), 1) == Step(pos, Delta(Up))
    ensures PredictPacmanPosition(level, pos, Some(Up), 1) != Step(pos, Delta(Up))
  {
  }

  /** The predicted player cell move_ghosts works with: the program's own
      prediction, or the corrected one when corrected is set. */
  function Future(level: array2<int>, pacman: Cell, dir: Option<Direction>, corrected: bool): Cell
    requires level.Length0 > 0 && level.Length1 > 0
    reads level
  {
    if corrected then PredictIntended(level, pacman, dir, 1) else PredictPacmanPosition(level, pacman, dir, 1)
  }

  /** What move_towards is asked to chase by ghost i standing on p: the player
      for the first ghost; for the others the predicted cell when it is a
      neighbour, else the player. With the program's prediction a later ghost
      next to that prediction targets it; with the corrected one, a later
      ghost next to the cell the player is heading into targets that cell. */
  function GhostTarget(level: array2<int>, pacman: Cell, dir: Option<Direction>, corrected: bool, i: nat, p: Cell): (t: Cell)
    requires level.Length0 > 0 && level.Length1 > 0
    reads level
    ensures t == pacman || (i > 0 && Edge(level, p, t))
    ensures i == 0 ==> t == pacman
    ensures !corrected && i > 0 && Edge(level, p, PredictPacmanPosition(level, pacman, dir, 1)) ==>
              t == PredictPacmanPosition(level, pacman, dir, 1)
    ensures corrected && i > 0 && dir.Some? && Edge(level, p, Step(pacman, Delta(dir.value))) ==>
              t == Step(pacman, Delta(dir.value))
  {
    if i == 0 then pacman
    else
      var future := Future(level, pacman, dir, corrected);
      if Edge(level, p, future) then future else pacman
  }

  /** The cells of the ghosts gs, in roster order. */
  function Positions(gs: seq<Ghost>): (ps: seq<Cell>)
    reads set g | g in gs
    ensures |ps| == |gs| && forall k :: 0 <= k < |gs| ==> ps[k] == gs[k].position
  {
    if gs == [] then [] else [gs[0].position] + Positions(gs[1..])
  }

  /** The ghosts 0 .. n-1 took a chase step each from before to after, towards
      the target move_ghosts gives them, and the others kept their cells. */
  ghost predicate ChasedUpTo(level: array2<int>, pacman: Cell, dir: Option<Direction>, corrected: bool,
                             before: seq<Cell>, after: seq<Cell>, n: nat)
    requires level.Length0 > 0 && level.Length1 > 0
    reads level
  {
    && |after| == |before| && n <= |before|
    && (forall k :: 0 <= k < n ==> ChaseStep(level, before[k], after[k], GhostTarget(level, pacman, dir, corrected, k, before[k])))
    && (forall k :: n <= k < |before| ==> after[k] == before[k])
  }

  /** The outcome of move_ghosts from before to after: moved ghosts took
      their chase steps, and when moved falls short of the roster, ghost
      moved could not reach its target (its search raised KeyError). */
  ghost predicate GhostsMoved(level: array2<int>, pacman: Cell, dir: Option<Direction>, corrected: bool,
                              before: seq<Cell>, after: seq<Cell>, moved: nat)
    requires level.Length0 > 0 && level.Length1 > 0
    reads level
  {
    && ChasedUpTo(level, pacman, dir, corrected, before, after, moved)
    && (moved < |before| ==> !Reachable(level, before[moved], GhostTarget(level, pacman, dir, corrected, moved, before[moved])))
  }

  /** Ghost i's part of move_ghosts: it moves towards the player when it is
      the first ghost, and otherwise intercepts the predicted cell. */
  method MoveGhost(g: Ghost, pacman: Cell, dir: Option<Direction>, corrected: bool, i: nat) returns (ok: bool)
    requires g.level.Length0 > 0 && g.level.Length1 > 0
    modifies g
    ensures ok <==> Reachable(g.level, old(g.position), GhostTarget(g.level, pacman, dir, corrected, i, old(g.position)))
    ensures !ok ==> g.position == old(g.position)
    ensures ok ==> ChaseStep(g.level, old(g.position), g.position, GhostTarget(g.level, pacman, dir, corrected, i, old(g.position)))
  {
    if i == 0 {
      ok := g.MoveTowards(pacman);
    } else {
      var futurePosition := Future(g.level, pacman, dir, corrected);
      ok := g.Intercept(futurePosition, pacman);
    }
  }

  /** One more ghost's chase step extends ChasedUpTo by one. */
  lemma ChasedExtend(level: array2<int>, pacman: Cell, dir: Option<Direction>, corrected: bool,
                     before: seq<Cell>, after: seq<Cell>, i: nat, b: Cell)
    requires level.Length0 > 0 && level.Length1 > 0
    requires ChasedUpTo(level, pacman, dir, corrected, before, after, i) && i < |before|
    requires ChaseStep(level, after[i], b, GhostTarget(level, pacman, dir, corrected, i, after[i]))
    ensures ChasedUpTo(level, pacman, dir, corrected, before, after[i := b], i + 1)
  {
  }

  /** With the program's prediction, a ghost after the first whose
      predicted player cell is one of its neighbours lands on that cell. */
  lemma InterceptLands(level: array2<int>, pacman: Cell, dir: Option<Direction>,
                       before: seq<Cell>, after: seq<Cell>, n: nat, i: nat)
    requires level.Length0 > 0 && level.Length1 > 0
    requires ChasedUpTo(level, pacman, dir, false, before, after, n) && 0 < i < n
    requires Edge(level, before[i], PredictPacmanPosition(level, pacman, dir, 1))
    ensures after[i] == PredictPacmanPosition(level, pacman, dir, 1)
  {
    ChaseAdjacent(level, before[i], after[i], PredictPacmanPosition(level, pacman, dir, 1));
  }

  /** With the corrected prediction, a ghost after the first that stands
      next to the cell the player is heading into lands on that cell. */
  lemma InterceptHeading(level: array2<int>, pacman: Cell, dir: Option<Direction>,
                         before: seq<Cell>, after: seq<Cell>, n: nat, i: nat)
    requires level.Length0 > 0 && level.Length1 > 0
    requires ChasedUpTo(level, pacman, dir, true, before, after, n) && 0 < i < n
    requires dir.Some? && Edge(level, before[i], Step(pacman, Delta(dir.value)))
    ensures after[i] == Step(pacman, Delta(dir.value))
  {
    ChaseAdjacent(level, before[i], after[i], Step(pacman, Delta(dir.value)));
  }

  /** A ghost that was chasing the player and stood elsewhere comes one move
      closer to the player. */
  lemma ChaserCloses(level: array2<int>, pacman: Cell, dir: Option<Direction>, corrected: bool,
                     before: seq<Cell>, after: seq<Cell>, n: nat, i: nat, dist: int)
    requires level.Length0 > 0 && level.Length1 > 0
    requires ChasedUpTo(level, pacman, dir, corrected, before, after, n) && i < n
    requires GhostTarget(level, pacman, dir, corrected, i, before[i]) == pacman && before[i] != pacman
    requires DistanceIs(level, before[i], pacman, dist)
    ensures dist >= 1 && DistanceIs(level, after[i], pacman, dist - 1)
  {
    ChaseCloser(level, before[i], after[i], pacman, dist);
  }

  /** The outcome of one frame: still running, stopped (caught, or the last
      level cleared), or ended by the KeyError a search raised. */
  datatype Outcome = Running | Stopped | Crashed

  class Game {
    const levels: seq<array2<int>>
    var currentLevel: nat
    var level: array2<int>
    var pacmanPosition: Cell
    var ghosts: seq<Ghost>
    var direction: Option<Direction>
    var pacmanMoveDelay: int
    const pacmanMoveInterval: int := 300
    var ghostMoveDelay: int
    const ghostMoveInterval: int := 500

    /** The live level is the current entry of the level list (the same grid,
        not a copy), every ghost searches that grid, and no ghost appears
        twice in the roster. */
    ghost predicate Valid()
      reads this`currentLevel, this`level, this`ghosts
    {
      && |levels| > 0
      && (forall k :: 0 <= k < |levels| ==> levels[k].Length0 > 0 && levels[k].Length1 > 0)
      && currentLevel <= |levels|
      && (currentLevel < |levels| ==> level == levels[currentLevel])
      && RosterValid()
    }

    /** Every ghost searches the live level, which is not empty, and no ghost
        appears twice in the roster. */
    ghost predicate RosterValid()
      reads this`level, this`ghosts
    {
      && level.Length0 > 0 && level.Length1 > 0
      && (forall i :: 0 <= i < |ghosts| ==> ghosts[i].level == level)
      && (forall i, j :: 0 <= i < j < |ghosts| ==> ghosts[i] != ghosts[j])
    }

    /** __init__ over a given level list: level 0, the player on (1, 1), no
        heading, both cadence counters at zero, and the ghosts of level 0. */
    constructor (levels: seq<array2<int>>)
      requires |levels| > 0
      requires forall k :: 0 <= k < |levels| ==> levels[k].Length0 > 0 && levels[k].Length1 > 0
      ensures Valid()
      ensures this.levels == levels && currentLevel == 0 && level == levels[0]
      ensures pacmanPosition == (1, 1) && direction == None
      ensures pacmanMoveDelay == 0 && ghostMoveDelay == 0
      ensures |ghosts| == 1 && fresh(ghosts[0]) && SpawnSpot(level, (1, 1), ghosts[0].position)
    {
      this.levels := levels;
      currentLevel := 0;
      level := levels[0];
      pacmanPosition := (1, 1);
      ghosts := [];
      direction := None;
      pacmanMoveDelay := 0;
      ghostMoveDelay := 0;
      new;
      ghosts := SpawnGhosts();
    }

    /** find_spawn_position: a random candidate cell, or (1, 1) when there is
        none. The random choice is any candidate. */
    method FindSpawnPosition() returns (p: Cell)
      ensures SpawnSpot(level, pacmanPosition, p)
    {
      var candidates := SpawnCandidates(level, pacmanPosition, 0);
      if candidates != [] {
        assert candidates[0] in candidates;
        p :| p in candidates;
      } else {
        p := (1, 1);
      }
    }

    /** spawn_ghosts: one ghost on the first two levels, two afterwards, each
        a new object on a spawn spot of the live level and searching it. */
    method SpawnGhosts() returns (gs: seq<Ghost>)
      ensures |gs| == if currentLevel < 2 then 1 else 2
      ensures forall i :: 0 <= i < |gs| ==> fresh(gs[i]) && gs[i].level == level
      ensures forall i :: 0 <= i < |gs| ==> SpawnSpot(level, pacmanPosition, gs[i].position)
      ensures forall i, j :: 0 <= i < j < |gs| ==> gs[i] != gs[j]
    {
      var numGhosts := if currentLevel < 2 then 1 else 2;
      gs := [];
      for k := 0 to numGhosts
        invariant |gs| == k
        invariant forall i :: 0 <= i < k ==> fresh(gs[i]) && gs[i].level == level
        invariant forall i :: 0 <= i < k ==> SpawnSpot(level, pacmanPosition, gs[i].position)
        invariant forall i, j :: 0 <= i < j < k ==> gs[i] != gs[j]
      {
        var ghostPosition := FindSpawnPosition();
        var g := new Ghost(ghostPosition, level);
        gs := gs + [g];
      }
    }

    /** is_game_over: some ghost stands on the player's cell. */
    function IsGameOver(): (b: bool)
      reads this, set g | g in ghosts
      ensures b <==> exists i :: 0 <= i < |ghosts| && ghosts[i].position == pacmanPosition
    {
      AnyGhostOn(ghosts, pacmanPosition)
    }

    /** move_pacman: with a heading, the token moves one unit step along it
        when the destination is inside the grid and not a wall, and eats the
        pill there. Without a move the level is untouched. */
    method MovePacman()
      modifies this, level
      ensures currentLevel == old(currentLevel) && level == old(level)
      ensures ghosts == old(ghosts) && direction == old(direction)
      ensures pacmanMoveDelay == old(pacmanMoveDelay) && ghostMoveDelay == old(ghostMoveDelay)
      ensures pacmanPosition == old(PacmanStep(level, pacmanPosition, direction))
      ensures GridAfterMove(level, old(pacmanPosition), pacmanPosition)
      ensures pacmanPosition != old(pacmanPosition) ==> PillCells(level) == old(PillCells(level)) - {pacmanPosition}
    {
      if direction.Some? {
        var newPosition := Step(pacmanPosition, Delta(direction.value));
        if 0 <= newPosition.0 < level.Length0 && 0 <= newPosition.1 < level.Length1
           && level[newPosition.0, newPosition.1] != ItemWall {
          pacmanPosition := newPosition;
          EatPill(level, newPosition);
        }
      }
    }

    /** move_ghosts: the ghosts in roster order each take a chase step towards
        their target. moved is the number of ghosts that moved before a
        search raised KeyError (all of them when none did); the ghost that
        raised it could not reach its target, and it and the ghosts after it
        keep their cells. corrected selects the prediction the later ghosts
        use: false is the program's own. */
    method MoveGhosts(corrected: bool) returns (moved: nat, ghost before: seq<Cell>, ghost after: seq<Cell>)
      requires RosterValid()
      modifies set g | g in ghosts
      ensures before == old(Positions(ghosts))
      ensures |after| == |ghosts| && forall k :: 0 <= k < |ghosts| ==> ghosts[k].position == after[k]
      ensures GhostsMoved(level, pacmanPosition, direction, corrected, before, after, moved)
    {
      before := Positions(ghosts);
      after := before;
      var i := 0;
      while i < |ghosts|
        invariant 0 <= i <= |ghosts|
        invariant |after| == |ghosts| && forall k :: 0 <= k < |ghosts| ==> ghosts[k].position == after[k]
        invariant ChasedUpTo(level, pacmanPosition, direction, corrected, before, after, i)
      {
        var ok := MoveGhost(ghosts[i], pacmanPosition, direction, corrected, i);
        if !ok {
          return i, before, after;
        }
        ChasedExtend(level, pacmanPosition, direction, corrected, before, after, i, ghosts[i].position);
        after := after[i := ghosts[i].position];
        i := i + 1;
      }
      moved := i;
    }

    /** The player cadence of the run loop: the counter advances and, on
        reaching its interval, the token moves and the counter restarts. */
    method PacmanTick()
      modifies this, level
      ensures currentLevel == old(currentLevel) && level == old(level) && ghosts == old(ghosts)
      ensures direction == old(direction) && ghostMoveDelay == old(ghostMoveDelay)
      ensures pacmanMoveDelay == if old(pacmanMoveDelay) + 1 >= pacmanMoveInterval then 0 else old(pacmanMoveDelay) + 1
      ensures pacmanPosition == if old(pacmanMoveDelay) + 1 >= pacmanMoveInterval
                                then old(PacmanStep(level, pacmanPosition, direction)) else old(pacmanPosition)
      ensures GridAfterMove(level, old(pacmanPosition), pacmanPosition)
      ensures pacmanPosition != old(pacmanPosition) ==> PillCells(level) == old(PillCells(level)) - {pacmanPosition}
    {
      pacmanMoveDelay := pacmanMoveDelay + 1;
      if pacmanMoveDelay >= pacmanMoveInterval {
        MovePacman();
        pacmanMoveDelay := 0;
      }
    }

    /** The ghost cadence of the run loop: the counter advances and, on
        reaching its interval, the ghosts move and the counter restarts,
        unless a search raised KeyError (crashed), which leaves the counter
        at the interval or beyond. Before the interval no ghost moves. */
    method GhostTick(corrected: bool) returns (crashed: bool, ghost moved: nat, ghost before: seq<Cell>, ghost after: seq<Cell>)
      requires RosterValid()
      modifies this`ghostMoveDelay, set g | g in ghosts
      ensures crashed ==> old(ghostMoveDelay) + 1 >= ghostMoveInterval && ghostMoveDelay == old(ghostMoveDelay) + 1
      ensures !crashed ==>
                ghostMoveDelay == if old(ghostMoveDelay) + 1 >= ghostMoveInterval then 0 else old(ghostMoveDelay) + 1
      ensures before == old(Positions(ghosts))
      ensures |after| == |ghosts| && forall k :: 0 <= k < |ghosts| ==> ghosts[k].position == after[k]
      ensures old(ghostMoveDelay) + 1 < ghostMoveInterval ==> !crashed && after == before
      ensures old(ghostMoveDelay) + 1 >= ghostMoveInterval ==>
                GhostsMoved(level, pacmanPosition, direction, corrected, before, after, moved) && (crashed <==> moved < |ghosts|)
    {
      // The counter is written last; the ghosts' moves do not read it.
      crashed, moved := false, 0;
      before := Positions(ghosts);
      after := before;
      if ghostMoveDelay + 1 >= ghostMoveInterval {
        var count;
        count, before, after := MoveGhosts(corrected);
        moved := count;
        crashed := count < |ghosts|;
      }
      ghostMoveDelay := if ghostMoveDelay + 1 >= ghostMoveInterval && !crashed then 0 else ghostMoveDelay + 1;
    }

    /** The end of a pass of the run loop: a level without pills is left for
        the next one (player back on (1, 1), new ghosts) or, after the last
        level, stops the game; then a ghost on the player's cell stops it. */
    method EndFrame() returns (outcome: Outcome)
      requires Valid() && currentLevel < |levels|
      modifies this
      ensures Valid() && outcome != Crashed
      ensures direction == old(direction)
      ensures pacmanMoveDelay == old(pacmanMoveDelay) && ghostMoveDelay == old(ghostMoveDelay)
      ensures currentLevel == old(currentLevel) <==> old(PillCells(level)) != {}
      ensures currentLevel == old(currentLevel) || currentLevel == |levels| ==>
                level == old(level) && ghosts == old(ghosts) && pacmanPosition == old(pacmanPosition)
      ensures currentLevel != old(currentLevel) ==> currentLevel == old(currentLevel) + 1
      ensures currentLevel == old(currentLevel) + 1 && currentLevel < |levels| ==>
                && level == levels[currentLevel] && pacmanPosition == (1, 1)
                && |ghosts| == (if currentLevel < 2 then 1 else 2)
                && forall i :: 0 <= i < |ghosts| ==> fresh(ghosts[i]) && SpawnSpot(level, (1, 1), ghosts[i].position)
      ensures outcome == Stopped <==> currentLevel == |levels| || IsGameOver()
    {
      outcome := Running;
      if !CheckPills(level) {
        currentLevel := currentLevel + 1;
        if currentLevel < |levels| {
          level := levels[currentLevel];
          pacmanPosition := (1, 1);
          ghosts := SpawnGhosts();
        } else {
          outcome := Stopped;
        }
      }
      if IsGameOver() {
        outcome := Stopped;
      }
    }

    /** The moving half of a pass of the run loop: the last arrow key of the
        frame (if any) becomes the heading, then the player cadence and the
        ghost cadence run. stepped is the player's cell after its cadence; the
        ghosts went from before to after, the first moved of them by a chase
        step when their cadence fired; crashed reports the KeyError of a
        search. */
    method MoveActors(key: Option<Direction>, corrected: bool)
      returns (crashed: bool, ghost stepped: Cell, ghost moved: nat, ghost before: seq<Cell>, ghost after: seq<Cell>)
      requires RosterValid()
      modifies this, level, set g | g in ghosts
      ensures currentLevel == old(currentLevel) && level == old(level) && ghosts == old(ghosts)
      ensures direction == if key.Some? then key else old(direction)
      ensures pacmanMoveDelay == if old(pacmanMoveDelay) + 1 >= pacmanMoveInterval then 0 else old(pacmanMoveDelay) + 1
      ensures stepped == pacmanPosition
      ensures pacmanPosition == if old(pacmanMoveDelay) + 1 >= pacmanMoveInterval
                                then old(PacmanStep(level, pacmanPosition, if key.Some? then key else direction))
                                else old(pacmanPosition)
      ensures GridAfterMove(level, old(pacmanPosition), pacmanPosition)
      ensures before == old(Positions(ghosts))
      ensures |after| == |ghosts| && forall k :: 0 <= k < |ghosts| ==> ghosts[k].position == after[k]
      ensures old(ghostMoveDelay) + 1 < ghostMoveInterval ==> !crashed && after == before
      ensures old(ghostMoveDelay) + 1 >= ghostMoveInterval ==>
                GhostsMoved(level, pacmanPosition, direction, corrected, before, after, moved) && (crashed <==> moved < |ghosts|)
      ensures crashed ==> ghostMoveDelay == old(ghostMoveDelay) + 1
      ensures !crashed ==>
                ghostMoveDelay == if old(ghostMoveDelay) + 1 >= ghostMoveInterval then 0 else old(ghostMoveDelay) + 1
    {
      if key.Some? {
        direction := key;
      }
      PacmanTick();
      stepped := pacmanPosition;
      crashed, moved, before, after := GhostTick(corrected);
    }

    /** One pass of the run loop after the input events: the actors move as
        MoveActors says, and the end-of-frame checks follow, unless a KeyError
        from a search ended the frame at once. */
    method Frame(key: Option<Direction>, corrected: bool)
      returns (outcome: Outcome, ghost stepped: Cell, ghost moved: nat, ghost before: seq<Cell>, ghost after: seq<Cell>)
      requires Valid() && currentLevel < |levels|
      modifies this, level, set g | g in ghosts
      ensures Valid()
      ensures direction == if key.Some? then key else old(direction)
      ensures pacmanMoveDelay == if old(pacmanMoveDelay) + 1 >= pacmanMoveInterval then 0 else old(pacmanMoveDelay) + 1
      ensures stepped == if old(pacmanMoveDelay) + 1 >= pacmanMoveInterval
                         then old(PacmanStep(level, pacmanPosition, if key.Some? then key else direction))
                         else old(pacmanPosition)
      ensures GridAfterMove(old(level), old(pacmanPosition), stepped)
      ensures before == old(Positions(ghosts)) && |after| == |before|
      ensures forall k :: 0 <= k < |before| ==> old(ghosts)[k].position == after[k]
      ensures old(ghostMoveDelay) + 1 < ghostMoveInterval ==> after == before && outcome != Crashed
      ensures old(ghostMoveDelay) + 1 >= ghostMoveInterval ==>
                && GhostsMoved(old(level), stepped, direction, corrected, before, after, moved)
                && (outcome == Crashed <==> moved < |before|)
      ensures outcome != Crashed ==>
                ghostMoveDelay == if old(ghostMoveDelay) + 1 >= ghostMoveInterval then 0 else old(ghostMoveDelay) + 1
      ensures outcome == Crashed ==> ghostMoveDelay == old(ghostMoveDelay) + 1 && currentLevel == old(currentLevel)
      ensures currentLevel == old(currentLevel) || currentLevel == old(currentLevel) + 1
      ensures currentLevel == old(currentLevel) || currentLevel == |levels| ==>
                level == old(level) && ghosts == old(ghosts) && pacmanPosition == stepped
      ensures currentLevel == old(currentLevel) && outcome != Crashed ==> PillCells(level) != {}
      ensures currentLevel == old(currentLevel) + 1 ==> PillCells(old(level)) == {}
      ensures currentLevel == old(currentLevel) + 1 && currentLevel < |levels| ==>
                && level == levels[currentLevel] && pacmanPosition == (1, 1)
                && |ghosts| == (if currentLevel < 2 then 1 else 2)
                && forall i :: 0 <= i < |ghosts| ==> fresh(ghosts[i]) && SpawnSpot(level, (1, 1), ghosts[i].position)
      ensures outcome != Crashed ==> (outcome == Stopped <==> currentLevel == |levels| || IsGameOver())
    {
      var crashed;
      crashed, stepped, moved, before, after := MoveActors(key, corrected);
      if crashed {
        return Crashed, stepped, moved, before, after;
      }
      outcome := EndFrame();
    }
  }

  /** The `any` of is_game_over over the ghosts gs. */
  function AnyGhostOn(gs: seq<Ghost>, p: Cell): (b: bool)
    reads set g | g in gs
    ensures b <==> exists i :: 0 <= i < |gs| && gs[i].position == p
  {
    if gs == [] then false
    else gs[0].position == p || AnyGhostOn(gs[1..], p)
  }
}
