/** A pursuer (a ghost of the maze game): its position, the level grid it
    searches, breadth-first and depth-first search, and one step of pursuit. */
module Pursuer {
  import opened Maze
  import opened Search

  /** The path reconstruction shared by both searches: follow the parent links
      from target back to the root, then reverse. The first lookup fails with
      KeyError when target was never discovered. */
  method RebuildPath(ghost level: array2<int>, ghost src: Cell, parent: map<Cell, Option<Cell>>,
                     ghost depth: map<Cell, nat>, target: Cell) returns (r: Result<seq<Cell>>)
    requires ParentTree(level, src, parent, depth)
    ensures target !in parent ==> r == KeyError(target)
    ensures target in parent ==> r.Ok? && WalkBetween(level, src, target, r.value)
    ensures target in parent ==> |r.value| == depth[target] + 1
  {
    var path: seq<Cell> := [];
    var step: Option<Cell> := Some(target);
    while step.Some?
      invariant path == [] ==> step == Some(target)
      invariant path != [] ==> target in parent
      invariant path != [] && step.Some? ==> step.value in parent
      invariant step.Some? && step.value in parent ==>
                  path + PathBack(level, src, parent, depth, step.value) == PathBack(level, src, parent, depth, target)
      invariant step.None? ==> path == PathBack(level, src, parent, depth, target)
      decreases if step.Some? && step.value in depth then depth[step.value] + 1 else 0
    {
      var s := step.value;
      if s !in parent {
        return KeyError(s);
      }
      if s != src {
        ParentLink(level, src, parent, depth, s);
      }
      ghost var back := PathBack(level, src, parent, depth, s);
      assert path + back == path + [s] + back[1..];
      path := path + [s];
      step := parent[s];
    }
    PathBackSpec(level, src, parent, depth, target);
    r := Ok(Reverse(path));
  }

  /** The inner loop of both searches: every neighbour not yet visited is
      appended to the pending list, marked visited and given current as its
      parent (and, as bookkeeping, depth nd). */
  method AddNeighbors(current: Cell, neighbors: seq<Cell>, pending0: seq<Cell>, visited0: set<Cell>,
                      parent0: map<Cell, Option<Cell>>, ghost depth0: map<Cell, nat>, ghost nd: nat)
    returns (pending: seq<Cell>, visited: set<Cell>, parent: map<Cell, Option<Cell>>, ghost depth: map<Cell, nat>)
    ensures Frontier(pending, visited, parent, depth) == Scan(Frontier(pending0, visited0, parent0, depth0), current, neighbors, nd)
  {
    pending, visited, parent, depth := pending0, visited0, parent0, depth0;
    for i := 0 to |neighbors|
      invariant Frontier(pending, visited, parent, depth) == Scan(Frontier(pending0, visited0, parent0, depth0), current, neighbors[..i], nd)
    {
      assert neighbors[..i + 1][..i] == neighbors[..i];
      var neighbor := neighbors[i];
      if neighbor !in visited {
        pending := pending + [neighbor];
        visited := visited + {neighbor};
        parent := parent[neighbor := Some(current)];
        depth := depth[neighbor := nd];
      }
    }
    assert neighbors[..|neighbors|] == neighbors;
  }

  /** One round of bfs once the head of the queue is known not to be the
      target: dequeue it and enqueue its undiscovered neighbours. */
  method ExpandHead(level: array2<int>, ghost src: Cell, ghost target: Cell, current: Cell, neighbors: seq<Cell>,
                    queue0: seq<Cell>, visited0: set<Cell>, parent0: map<Cell, Option<Cell>>,
                    ghost depth0: map<Cell, nat>, ghost done: set<Cell>, ghost d: nat, ghost m: nat)
    returns (queue: seq<Cell>, visited: set<Cell>, parent: map<Cell, Option<Cell>>, ghost depth: map<Cell, nat>)
    requires BfsInv(level, src, target, Frontier(queue0, visited0, parent0, depth0), done, d, m)
    requires 0 < m && current == queue0[0] && current != target
    requires forall q :: q in neighbors <==> Edge(level, current, q)
    ensures BfsInv(level, src, target, Frontier(queue, visited, parent, depth), done + {current}, d, m - 1)
    ensures visited != visited0 ==> |AllCells(level) - visited| < |AllCells(level) - visited0|
    ensures visited == visited0 ==> queue == queue0[1..]
  {
    queue, visited, parent, depth := AddNeighbors(current, neighbors, queue0[1..], visited0, parent0, depth0, d + 1);
    BfsExpand(level, src, target, Frontier(queue0, visited0, parent0, depth0), done, d, m, current, neighbors,
              Frontier(queue0[1..], visited0, parent0, depth0), Frontier(queue, visited, parent, depth));
  }

  /** One round of dfs once the top of the stack is known not to be the
      target: pop it and push its undiscovered neighbours. */
  method ExpandTop(level: array2<int>, ghost src: Cell, ghost target: Cell, current: Cell, neighbors: seq<Cell>,
                   stack0: seq<Cell>, visited0: set<Cell>, parent0: map<Cell, Option<Cell>>,
                   ghost depth0: map<Cell, nat>, ghost done: set<Cell>)
    returns (stack: seq<Cell>, visited: set<Cell>, parent: map<Cell, Option<Cell>>, ghost depth: map<Cell, nat>)
    requires DfsInv(level, src, target, Frontier(stack0, visited0, parent0, depth0), done)
    requires stack0 != [] && current == stack0[|stack0| - 1] && current != target
    requires forall q :: q in neighbors <==> Edge(level, current, q)
    ensures DfsInv(level, src, target, Frontier(stack, visited, parent, depth), done + {current})
    ensures visited != visited0 ==> |AllCells(level) - visited| < |AllCells(level) - visited0|
    ensures visited == visited0 ==> stack == stack0[..|stack0| - 1]
  {
    DfsTop(level, src, target, Frontier(stack0, visited0, parent0, depth0), done);
    ghost var nd := depth0[current] + 1;
    stack, visited, parent, depth := AddNeighbors(current, neighbors, stack0[..|stack0| - 1], visited0, parent0, depth0, nd);
    DfsExpand(level, src, target, Frontier(stack0, visited0, parent0, depth0), done, current, neighbors, nd,
              Frontier(stack0[..|stack0| - 1], visited0, parent0, depth0), Frontier(stack, visited, parent, depth));
  }

  /** One move of a pursuer that chases t from a: it stays on a when a is t,
      and otherwise moves to a neighbour b that starts a shortest walk to t. */
  ghost predicate ChaseStep(level: array2<int>, a: Cell, b: Cell, t: Cell)
    reads level
  {
    && (a == t ==> b == a)
    && (a != t ==> Edge(level, a, b) && OnShortestWalk(level, a, b, t))
  }

  /** Chasing a cell that is already a neighbour lands on it. */
  lemma ChaseAdjacent(level: array2<int>, a: Cell, b: Cell, t: Cell)
    requires Edge(level, a, t) && ChaseStep(level, a, b, t)
    ensures b == t
  {
    AdjacentShortest(level, a, t);
  }

  /** A chase step towards t from a takes one move off the distance to t. */
  lemma ChaseCloser(level: array2<int>, a: Cell, b: Cell, t: Cell, n: int)
    requires ChaseStep(level, a, b, t) && DistanceIs(level, a, t, n) && a != t
    ensures n >= 1 && DistanceIs(level, b, t, n - 1)
  {
    StepShortensDistance(level, a, b, t, n);
  }

  class Ghost {
    var position: Cell
    const level: array2<int>

    constructor (startPos: Cell, level: array2<int>)
      ensures position == startPos && this.level == level
    {
      position := startPos;
      this.level := level;
    }

    /** get_neighbors: the offsets right, down, left, up, kept when the cell
        they lead to is inside the grid and not a wall. */
    method GetNeighbors(pos: Cell) returns (ns: seq<Cell>)
      ensures forall q :: q in ns <==> Edge(level, pos, q)
      ensures forall i :: 0 <= i < |ns| - 1 ==> DirectionIndex(pos, ns[i]) < DirectionIndex(pos, ns[i + 1])
    {
      ns := [];
      for i := 0 to |Directions|
        invariant ns == OpenSteps(level, pos, i)
      {
        var neighborPos := (pos.0 + Directions[i].0, pos.1 + Directions[i].1);
        if 0 <= neighborPos.0 < level.Length0 && 0 <= neighborPos.1 < level.Length1
           && level[neighborPos.0, neighborPos.1] != ItemWall {
          ns := ns + [neighborPos];
        }
      }
      assert ns == Neighbors(level, pos);
      NeighborsSpec(level, pos);
    }

    /** bfs: a FIFO queue, cells marked visited when discovered, stop when the
        target is dequeued, then rebuild the path from the parent links. The
        path is a shortest walk; the KeyError happens exactly when the target
        cannot be reached. */
    method Bfs(target: Cell) returns (path: Result<seq<Cell>>)
      ensures path.Ok? ==> IsShortestWalk(level, position, target, path.value)
      ensures path.KeyError? ==> path.key == target
      ensures path.KeyError? <==> !Reachable(level, position, target)
    {
      var queue: seq<Cell> := [position];
      var visited: set<Cell> := {position};
      var parent: map<Cell, Option<Cell>> := map[position := None];
      ghost var depth: map<Cell, nat> := map[position := 0];
      ghost var done: set<Cell> := {};
      ghost var d: nat, m: nat := 0, 1;
      BfsStart(level, position, target);

      while queue != []
        invariant BfsInv(level, position, target, Frontier(queue, visited, parent, depth), done, d, m)
        decreases |AllCells(level) - visited|, |queue|
      {
        if m == 0 {
          BfsNextLayer(level, position, target, Frontier(queue, visited, parent, depth), done, d);
          d, m := d + 1, |queue|;
        }
        var current := queue[0];
        if current == target {
          BfsHeadShortest(level, position, target, Frontier(queue, visited, parent, depth), done, d, m);
          break;
        }
        var neighbors := GetNeighbors(current);
        queue, visited, parent, depth := ExpandHead(level, position, target, current, neighbors,
                                                    queue, visited, parent, depth, done, d, m);
        done, m := done + {current}, m - 1;
      }

      if queue == [] {
        BfsExhausted(level, position, target, Frontier(queue, visited, parent, depth), done, d, m);
      }
      path := RebuildPath(level, position, parent, depth, target);
    }

    /** dfs: the same search with a LIFO stack. The path is a walk from the
        ghost to the target (not necessarily a shortest one); the KeyError
        happens exactly when the target cannot be reached. */
    method Dfs(target: Cell) returns (path: Result<seq<Cell>>)
      ensures path.Ok? ==> WalkBetween(level, position, target, path.value)
      ensures path.KeyError? ==> path.key == target
      ensures path.KeyError? <==> !Reachable(level, position, target)
    {
      var stack: seq<Cell> := [position];
      var visited: set<Cell> := {position};
      var parent: map<Cell, Option<Cell>> := map[position := None];
      ghost var depth: map<Cell, nat> := map[position := 0];
      ghost var done: set<Cell> := {};
      DfsStart(level, position, target);

      while stack != []
        invariant DfsInv(level, position, target, Frontier(stack, visited, parent, depth), done)
        decreases |AllCells(level) - visited|, |stack|
      {
        var current := stack[|stack| - 1];
        if current == target {
          break;
        }
        var neighbors := GetNeighbors(current);
        stack, visited, parent, depth := ExpandTop(level, position, target, current, neighbors,
                                                   stack, visited, parent, depth, done);
        done := done + {current};
      }

      if stack == [] {
        DfsExhausted(level, position, target, Frontier(stack, visited, parent, depth), done);
      }
      path := RebuildPath(level, position, parent, depth, target);
    }

    /** move_towards: one step along the breadth-first path. The ghost stays put
        when it already stands on the target; otherwise it moves to a neighbour
        that starts a shortest walk to the target. When the target cannot be
        reached the search raises KeyError (ok is false) and nothing moves. */
    method MoveTowards(target: Cell) returns (ok: bool)
      modifies this
      ensures ok <==> Reachable(level, old(position), target)
      ensures !ok ==> position == old(position)
      ensures ok ==> ChaseStep(level, old(position), position, target)
    {
      var path := Bfs(target);
      if path.KeyError? {
        return false;
      }
      var cells := path.value;
      assert WalkBetween(level, position, target, cells);
      if position == target {
        assert WalkBetween(level, target, target, [target]);
      }
      if |cells| > 1 {
        assert Edge(level, cells[0], cells[1]);
        position := cells[1];
      }
      ok := true;
    }

    /** The policy move_ghosts applies to every ghost but the first: chase
        the predicted cell future when it is a neighbour, else the player.
        A ghost whose predicted cell is a neighbour lands on it. */
    method Intercept(future: Cell, pacman: Cell) returns (ok: bool)
      modifies this
      ensures ok <==> Reachable(level, old(position), if Edge(level, old(position), future) then future else pacman)
      ensures !ok ==> position == old(position)
      ensures ok ==> ChaseStep(level, old(position), position, if Edge(level, old(position), future) then future else pacman)
      ensures ok && Edge(level, old(position), future) ==> position == future
    {
      var neighbors := GetNeighbors(position);
      if future in neighbors {
        ok := MoveTowards(future);
        if ok {
          ChaseAdjacent(level, old(position), position, future);
        }
      } else {
        ok := MoveTowards(pacman);
      }
    }
  }
}

