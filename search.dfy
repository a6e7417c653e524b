/** The bookkeeping a pursuer's search builds (discovery parents, the cells
    waiting to be expanded) and the invariants that make breadth-first search
    find shortest walks and both searches find every reachable cell. */
module Search {
  import opened Maze

  /** The discovery-parent dictionary of a search rooted at src: the root has
      no parent, every other discovered cell was found as a neighbour of its
      parent, and depth counts the moves back to the root. */
  ghost predicate ParentTree(level: array2<int>, src: Cell, parent: map<Cell, Option<Cell>>, depth: map<Cell, nat>)
    reads level
  {
    && parent.Keys == depth.Keys
    && src in parent && parent[src] == None && depth[src] == 0
    && forall v {:trigger LinkOf(parent, v)} :: v in parent && v != src ==>
         && LinkOf(parent, v).Some? && LinkOf(parent, v).value in parent
         && Edge(level, LinkOf(parent, v).value, v)
         && depth[v] == depth[LinkOf(parent, v).value] + 1
  }

  /** The recorded parent of v, None when v has none. */
  ghost function LinkOf(parent: map<Cell, Option<Cell>>, v: Cell): Option<Cell> {
    if v in parent then parent[v] else None
  }

  /** The parent link of a discovered cell other than the root. */
  lemma ParentLink(level: array2<int>, src: Cell, parent: map<Cell, Option<Cell>>, depth: map<Cell, nat>, v: Cell)
    requires ParentTree(level, src, parent, depth) && v in parent && v != src
    ensures parent[v].Some? && parent[v].value in parent && Edge(level, parent[v].value, v)
    ensures depth[v] == depth[parent[v].value] + 1
  {
    assert LinkOf(parent, v) == parent[v];
  }

  /** The list reversed, as list.reverse() leaves it. */
  function Reverse(s: seq<Cell>): (r: seq<Cell>)
    ensures |r| == |s|
    ensures forall i :: 0 <= i < |s| ==> r[i] == s[|s| - 1 - i]
  {
    if s == [] then [] else Reverse(s[1..]) + [s[0]]
  }

  /** The chain of parent links from v back to the root, v first. */
  ghost function PathBack(level: array2<int>, src: Cell, parent: map<Cell, Option<Cell>>,
                          depth: map<Cell, nat>, v: Cell): seq<Cell>
    requires ParentTree(level, src, parent, depth) && v in parent
    reads level
    decreases depth[v]
  {
    if v == src then [v]
    else
      ParentLink(level, src, parent, depth, v);
      [v] + PathBack(level, src, parent, depth, parent[v].value)
  }

  /** Appending a neighbour of the last cell extends a walk. */
  lemma WalkSnoc(level: array2<int>, w: seq<Cell>, v: Cell)
    requires IsWalk(level, w) && Edge(level, w[|w| - 1], v)
    ensures IsWalk(level, w + [v])
  {
  }

  /** Read backwards, the parent chain of v is a walk from the root to v with
      depth[v] moves. */
  lemma {:induction false} PathBackSpec(level: array2<int>, src: Cell, parent: map<Cell, Option<Cell>>,
                                        depth: map<Cell, nat>, v: Cell)
    requires ParentTree(level, src, parent, depth) && v in parent
    ensures WalkBetween(level, src, v, Reverse(PathBack(level, src, parent, depth, v)))
    ensures |PathBack(level, src, parent, depth, v)| == depth[v] + 1
    decreases depth[v]
  {
    if v != src {
      ParentLink(level, src, parent, depth, v);
      var u := parent[v].value;
      PathBackSpec(level, src, parent, depth, u);
      var back := PathBack(level, src, parent, depth, u);
      assert Reverse([v] + back) == Reverse(back) + [v];
      WalkSnoc(level, Reverse(back), v);
    }
  }

  /** The breadth-first bound at the moment a cell is taken off the queue: every
      walk from the root to the head of the queue has more cells than the head's
      depth. w[k] is a discovered cell of the walk no deeper than k. */
  lemma {:induction false} FrontierBound(level: array2<int>, src: Cell, parent: map<Cell, Option<Cell>>,
                                         depth: map<Cell, nat>, done: set<Cell>, queue: seq<Cell>,
                                         w: seq<Cell>, k: nat)
    requires ParentTree(level, src, parent, depth)
    requires queue != [] && forall i :: 0 <= i < |queue| ==> queue[i] in parent
    requires done <= parent.Keys && forall v :: v in parent ==> v in done || v in queue
    requires forall i :: 0 <= i < |queue| ==> depth[queue[0]] <= depth[queue[i]]
    requires forall u, v :: u in done && Edge(level, u, v) ==> v in parent && depth[v] <= depth[u] + 1
    requires IsWalk(level, w) && w[|w| - 1] == queue[0]
    requires k < |w| && w[k] in parent && depth[w[k]] <= k
    ensures depth[queue[0]] < |w|
    decreases |w| - k
  {
    if w[k] !in done {
      var j :| 0 <= j < |queue| && queue[j] == w[k];
    } else if k < |w| - 1 {
      assert Edge(level, w[k], w[k + 1]);
      FrontierBound(level, src, parent, depth, done, queue, w, k + 1);
    }
  }

  /** Cells of the grid: every cell a search discovers after its root is one. */
  ghost function AllCells(level: array2<int>): set<Cell> {
    set r, c | 0 <= r < level.Length0 && 0 <= c < level.Length1 :: (r, c)
  }

  lemma InGrid(level: array2<int>, q: Cell)
    requires InBounds(level, q)
    ensures q in AllCells(level)
  {
    assert q == (q.0, q.1);
  }

  /** Discovering a new cell of the grid leaves fewer cells undiscovered. */
  lemma DiscoveryShrinks(all: set<Cell>, visited0: set<Cell>, visited: set<Cell>, v: Cell)
    requires visited0 <= visited && v in visited && v !in visited0 && v in all
    ensures |all - visited| < |all - visited0|
  {
    var rest, rest0 := all - visited, all - visited0;
    assert rest0 == rest + (rest0 - rest) && rest * (rest0 - rest) == {};
    assert v in rest0 - rest;
  }

  /** Every neighbour of a finished cell has been discovered, at most one
      move deeper than that cell. */
  ghost predicate LayersClosed(level: array2<int>, done: set<Cell>, depth: map<Cell, nat>)
    reads level
  {
    forall u, v :: u in done && Edge(level, u, v) ==>
      u in depth && v in depth && depth[v] <= depth[u] + 1
  }

  /** Every cell of the pending list has been discovered. */
  ghost predicate Discovered(pending: seq<Cell>, visited: set<Cell>) {
    forall k :: 0 <= k < |pending| ==> pending[k] in visited
  }

  /** Every discovered cell is finished or still pending. */
  ghost predicate Covered(visited: set<Cell>, done: set<Cell>, pending: seq<Cell>) {
    forall v :: v in visited ==> v in done || v in pending
  }

  /** The queue holds discovered cells of depth d before index m and of depth
      d + 1 from m on. */
  ghost predicate Layered(queue: seq<Cell>, visited: set<Cell>, depth: map<Cell, nat>, d: nat, m: nat) {
    && m <= |queue|
    && forall k :: 0 <= k < |queue| ==>
         queue[k] in visited && queue[k] in depth && depth[queue[k]] == if k < m then d else d + 1
  }

  /** No finished cell is deeper than d. */
  ghost predicate Shallow(done: set<Cell>, depth: map<Cell, nat>, d: nat) {
    forall u :: u in done ==> u in depth && depth[u] <= d
  }

  /** Every neighbour of a finished cell has been discovered. */
  ghost predicate DoneClosed(level: array2<int>, done: set<Cell>, visited: set<Cell>)
    reads level
  {
    forall u, v :: u in done && Edge(level, u, v) ==> v in visited
  }

  /** What a search has built so far: the cells waiting to be expanded (the
      queue or the stack), the discovered cells, and the discovery parents and
      depths. */
  datatype Frontier = Frontier(pending: seq<Cell>, visited: set<Cell>,
                               parent: map<Cell, Option<Cell>>, depth: map<Cell, nat>)

  /** One pass of the neighbour loop: a neighbour n not yet discovered is
      appended, marked discovered and recorded with parent current at depth nd. */
  ghost function ScanStep(s: Frontier, current: Cell, n: Cell, nd: nat): Frontier {
    if n in s.visited then s
    else Frontier(s.pending + [n], s.visited + {n}, s.parent[n := Some(current)], s.depth[n := nd])
  }

  /** The neighbour loop over ns, started from s. */
  ghost function Scan(s: Frontier, current: Cell, ns: seq<Cell>, nd: nat): Frontier
    decreases |ns|
  {
    if ns == [] then s else ScanStep(Scan(s, current, ns[..|ns| - 1], nd), current, ns[|ns| - 1], nd)
  }


  /** The cells the neighbour loop discovers are exactly the listed cells not
      discovered before it; when it discovers none it queues none. */
  lemma {:induction false} ScanDiscovers(s0: Frontier, current: Cell, ns: seq<Cell>, nd: nat, s: Frontier)
    requires s == Scan(s0, current, ns, nd)
    ensures forall v :: v in s.visited <==> v in s0.visited || v in ns
    ensures s.visited == s0.visited ==> s.pending == s0.pending
    decreases |ns|
  {
    if ns != [] {
      var init := ns[..|ns| - 1];
      ScanDiscovers(s0, current, init, nd, Scan(s0, current, init, nd));
      assert ns == init + [ns[|ns| - 1]];
    }
  }

  /** The neighbour loop over cells one move away from current keeps the
      parent tree, keeps every recorded depth and records the new cells at
      depth nd, one more than current's. */
  lemma {:induction false} ScanKeepsTree(level: array2<int>, src: Cell, s0: Frontier, current: Cell,
                                         ns: seq<Cell>, nd: nat, s: Frontier)
    requires ParentTree(level, src, s0.parent, s0.depth) && s0.visited == s0.parent.Keys
    requires current in s0.depth && nd == s0.depth[current] + 1
    requires forall k :: 0 <= k < |ns| ==> Edge(level, current, ns[k])
    requires s == Scan(s0, current, ns, nd)
    ensures ParentTree(level, src, s.parent, s.depth) && s.visited == s.parent.Keys
    ensures forall v :: v in s0.depth ==> v in s.depth && s.depth[v] == s0.depth[v]
    ensures forall v :: v in s.depth && v !in s0.depth ==> s.depth[v] == nd
    decreases |ns|
  {
    if ns != [] {
      var init := ns[..|ns| - 1];
      assert forall k :: 0 <= k < |init| ==> init[k] == ns[k];
      var prev := Scan(s0, current, init, nd);
      ScanKeepsTree(level, src, s0, current, init, nd, prev);
      var n := ns[|ns| - 1];
      if n !in prev.visited {
        ParentTreeAdd(level, src, prev.parent, prev.depth, current, n);
      }
    }
  }

  /** The neighbour loop keeps every pending cell discovered and every
      discovered cell finished or pending. */
  lemma {:induction false} ScanKeepsCover(s0: Frontier, current: Cell, ns: seq<Cell>, nd: nat,
                                          finished: set<Cell>, s: Frontier)
    requires Discovered(s0.pending, s0.visited) && Covered(s0.visited, finished, s0.pending)
    requires s == Scan(s0, current, ns, nd)
    ensures Discovered(s.pending, s.visited) && Covered(s.visited, finished, s.pending)
    decreases |ns|
  {
    if ns != [] {
      var init := ns[..|ns| - 1];
      var prev := Scan(s0, current, init, nd);
      ScanKeepsCover(s0, current, init, nd, finished, prev);
      var n := ns[|ns| - 1];
      if n !in prev.visited {
        DiscoveredAdd(prev.pending, prev.visited, n);
        CoveredAdd(prev.visited, finished, prev.pending, n);
      }
    }
  }

  /** The breadth-first neighbour loop, which queues new cells at depth
      d + 1, keeps the queue layered. */
  lemma {:induction false} ScanKeepsLayers(s0: Frontier, current: Cell, ns: seq<Cell>, d: nat, m: nat, s: Frontier)
    requires Layered(s0.pending, s0.visited, s0.depth, d, m)
    requires s == Scan(s0, current, ns, d + 1)
    ensures Layered(s.pending, s.visited, s.depth, d, m)
    decreases |ns|
  {
    if ns != [] {
      var init := ns[..|ns| - 1];
      var prev := Scan(s0, current, init, d + 1);
      ScanKeepsLayers(s0, current, init, d, m, prev);
      var n := ns[|ns| - 1];
      if n !in prev.visited {
        LayeredAdd(prev.pending, prev.visited, prev.depth, d, m, n);
      }
    }
  }

  /** Finished cells keep their depths and neighbours when the map of depths
      only grows. */
  lemma DepthsKept(level: array2<int>, done: set<Cell>, depth0: map<Cell, nat>, depth: map<Cell, nat>, d: nat)
    requires forall v :: v in depth0 ==> v in depth && depth[v] == depth0[v]
    requires Shallow(done, depth0, d) && LayersClosed(level, done, depth0)
    ensures Shallow(done, depth, d) && LayersClosed(level, done, depth)
  {
  }

  /** A neighbour loop that discovers a new cell leaves fewer cells to discover. */
  lemma ScanShrinks(level: array2<int>, s0: Frontier, s: Frontier, current: Cell, ns: seq<Cell>)
    requires forall q :: q in ns ==> Edge(level, current, q)
    requires forall v :: v in s.visited <==> v in s0.visited || v in ns
    ensures s.visited != s0.visited ==> |AllCells(level) - s.visited| < |AllCells(level) - s0.visited|
  {
    if s.visited != s0.visited {
      var v :| v in s.visited && v !in s0.visited;
      InGrid(level, v);
      DiscoveryShrinks(AllCells(level), s0.visited, s.visited, v);
    }
  }

  /** Recording a newly discovered neighbour n of u keeps the parent tree. */
  lemma ParentTreeAdd(level: array2<int>, src: Cell, parent: map<Cell, Option<Cell>>,
                      depth: map<Cell, nat>, u: Cell, n: Cell)
    requires ParentTree(level, src, parent, depth)
    requires u in parent && n !in parent && Edge(level, u, n)
    ensures ParentTree(level, src, parent[n := Some(u)], depth[n := depth[u] + 1])
  {
    var parent', depth' := parent[n := Some(u)], depth[n := depth[u] + 1];
    forall v | v in parent' && v != src
      ensures parent'[v].Some? && parent'[v].value in parent' && Edge(level, parent'[v].value, v)
              && depth'[v] == depth'[parent'[v].value] + 1
    {
      if v != n {
        ParentLink(level, src, parent, depth, v);
      }
    }
  }

  /** Appending a cell of depth d + 1 keeps the queue layered. */
  lemma LayeredAdd(queue: seq<Cell>, visited: set<Cell>, depth: map<Cell, nat>, d: nat, m: nat, n: Cell)
    requires Layered(queue, visited, depth, d, m) && n !in visited
    ensures Layered(queue + [n], visited + {n}, depth[n := d + 1], d, m)
  {
  }

  /** Appending the newly discovered cell to the pending list keeps it covering. */
  lemma CoveredAdd(visited: set<Cell>, done: set<Cell>, pending: seq<Cell>, n: Cell)
    requires Covered(visited, done, pending)
    ensures Covered(visited + {n}, done, pending + [n])
  {
  }

  /** Appending the newly discovered cell keeps the pending list discovered. */
  lemma DiscoveredAdd(pending: seq<Cell>, visited: set<Cell>, n: Cell)
    requires Discovered(pending, visited)
    ensures Discovered(pending + [n], visited + {n})
  {
  }

  /** Removing the cell at index j keeps the rest discovered, and every
      discovered cell is then finished, the removed cell or still pending. */
  lemma CoverRemove(visited: set<Cell>, done: set<Cell>, pending: seq<Cell>, j: nat)
    requires Discovered(pending, visited) && Covered(visited, done, pending) && j < |pending|
    ensures var rest := pending[..j] + pending[j + 1..];
            Discovered(rest, visited) && Covered(visited, done + {pending[j]}, rest)
  {
  }

  // ---------------------------------------------------------------------
  // Breadth-first search

  /** The state of the breadth-first loop between two dequeues: done holds
      the cells already expanded, the queue is layered at depth d, and the
      target was not expanded. */
  ghost predicate BfsInv(level: array2<int>, src: Cell, target: Cell, s: Frontier,
                         done: set<Cell>, d: nat, m: nat)
    reads level
  {
    && ParentTree(level, src, s.parent, s.depth)
    && s.visited == s.parent.Keys && done <= s.visited
    && Layered(s.pending, s.visited, s.depth, d, m)
    && Covered(s.visited, done, s.pending)
    && Shallow(done, s.depth, d)
    && LayersClosed(level, done, s.depth)
    && target !in done
  }

  /** The search starts with only its root discovered. */
  lemma BfsStart(level: array2<int>, src: Cell, target: Cell)
    ensures BfsInv(level, src, target, Frontier([src], {src}, map[src := None], map[src := 0]), {}, 0, 1)
  {
  }

  /** When every queued cell lies on the deeper layer, that layer becomes the
      current one. */
  lemma BfsNextLayer(level: array2<int>, src: Cell, target: Cell, s: Frontier, done: set<Cell>, d: nat)
    requires BfsInv(level, src, target, s, done, d, 0)
    ensures BfsInv(level, src, target, s, done, d + 1, |s.pending|)
  {
  }

  /** The head of the queue is a shallowest queued cell, so when it is the
      target its depth is the length of a shortest walk. */
  lemma BfsHeadShortest(level: array2<int>, src: Cell, target: Cell, s: Frontier,
                        done: set<Cell>, d: nat, m: nat)
    requires BfsInv(level, src, target, s, done, d, m)
    requires 0 < m && s.pending[0] == target
    ensures target in s.parent
    ensures forall w :: WalkBetween(level, src, target, w) ==> s.depth[target] < |w|
  {
    forall w | WalkBetween(level, src, target, w) ensures s.depth[target] < |w| {
      FrontierBound(level, src, s.parent, s.depth, done, s.pending, w, 0);
    }
  }

  /** Every discovered cell is at most d + 1 deep. */
  lemma BfsDepthBound(s: Frontier, done: set<Cell>, d: nat, m: nat)
    requires Layered(s.pending, s.visited, s.depth, d, m) && Covered(s.visited, done, s.pending)
    requires Shallow(done, s.depth, d)
    ensures forall v :: v in s.visited ==> v in s.depth && s.depth[v] <= d + 1
  {
  }

  /** Dequeuing the head, of depth d, keeps the rest of the queue layered,
      discovered and, with the head counted as finished, covering. */
  lemma BfsDequeue(s: Frontier, done: set<Cell>, d: nat, m: nat, current: Cell, s0: Frontier)
    requires Layered(s.pending, s.visited, s.depth, d, m) && Covered(s.visited, done, s.pending)
    requires 0 < m && current == s.pending[0]
    requires s0 == Frontier(s.pending[1..], s.visited, s.parent, s.depth)
    ensures current in s.depth && s.depth[current] == d
    ensures Layered(s0.pending, s0.visited, s0.depth, d, m - 1)
    ensures Discovered(s0.pending, s0.visited) && Covered(s0.visited, done + {current}, s0.pending)
  {
  }

  /** Once its neighbours are queued, the expanded cell current, of depth d,
      joins the finished cells: its neighbours are at most d + 1 deep. */
  lemma BfsCloseCurrent(level: array2<int>, s: Frontier, s1: Frontier, done: set<Cell>, d: nat, current: Cell)
    requires Shallow(done, s.depth, d) && LayersClosed(level, done, s.depth)
    requires current in s.depth && s.depth[current] == d
    requires forall v :: v in s.visited ==> v in s.depth && s.depth[v] <= d + 1
    requires forall v :: v in s.depth ==> v in s1.depth && s1.depth[v] == s.depth[v]
    requires forall v :: v in s1.depth && v !in s.depth ==> s1.depth[v] == d + 1
    requires s.visited == s.depth.Keys && s1.visited == s1.depth.Keys
    requires forall v :: Edge(level, current, v) ==> v in s1.visited
    ensures Shallow(done + {current}, s1.depth, d) && LayersClosed(level, done + {current}, s1.depth)
  {
    DepthsKept(level, done, s.depth, s1.depth, d);
  }

  /** The cells listed as neighbours are one move away. */
  lemma NeighborEdges(level: array2<int>, p: Cell, ns: seq<Cell>)
    requires forall q :: q in ns <==> Edge(level, p, q)
    ensures forall k :: 0 <= k < |ns| ==> Edge(level, p, ns[k])
  {
  }

  /** The invariant after expanding current, from what the neighbour loop
      keeps and adds: s0 is the queue after the dequeue, s1 after the loop. */
  lemma BfsReestablish(level: array2<int>, src: Cell, target: Cell, s: Frontier, done: set<Cell>, d: nat, m: nat,
                       current: Cell, neighbors: seq<Cell>, s0: Frontier, s1: Frontier)
    requires BfsInv(level, src, target, s, done, d, m)
    requires 0 < m && current == s.pending[0] && current != target
    requires current in s.depth && s.depth[current] == d
    requires forall q :: q in neighbors <==> Edge(level, current, q)
    requires s0 == Frontier(s.pending[1..], s.visited, s.parent, s.depth)
    requires forall v :: v in s1.visited <==> v in s0.visited || v in neighbors
    requires s1.visited == s0.visited ==> s1.pending == s0.pending
    requires ParentTree(level, src, s1.parent, s1.depth) && s1.visited == s1.parent.Keys
    requires forall v :: v in s0.depth ==> v in s1.depth && s1.depth[v] == s0.depth[v]
    requires forall v :: v in s1.depth && v !in s0.depth ==> s1.depth[v] == d + 1
    requires Covered(s1.visited, done + {current}, s1.pending)
    requires Layered(s1.pending, s1.visited, s1.depth, d, m - 1)
    ensures BfsInv(level, src, target, s1, done + {current}, d, m - 1)
    ensures s1.visited != s.visited ==> |AllCells(level) - s1.visited| < |AllCells(level) - s.visited|
    ensures s1.visited == s.visited ==> s1.pending == s0.pending
  {
    NeighborEdges(level, current, neighbors);
    BfsDepthBound(s, done, d, m);
    BfsCloseCurrent(level, s, s1, done, d, current);
    ScanShrinks(level, s0, s1, current, neighbors);
  }

  /** Expanding the head of the queue when it is not the target: dequeue it
      (leaving s0), then queue its undiscovered neighbours one move deeper
      (leaving s1). The loop invariant holds again, with fewer undiscovered
      cells or a shorter queue. */
  lemma BfsExpand(level: array2<int>, src: Cell, target: Cell, s: Frontier, done: set<Cell>, d: nat, m: nat,
                  current: Cell, neighbors: seq<Cell>, s0: Frontier, s1: Frontier)
    requires BfsInv(level, src, target, s, done, d, m)
    requires 0 < m && current == s.pending[0] && current != target
    requires forall q :: q in neighbors <==> Edge(level, current, q)
    requires s0 == Frontier(s.pending[1..], s.visited, s.parent, s.depth)
    requires s1 == Scan(s0, current, neighbors, d + 1)
    ensures BfsInv(level, src, target, s1, done + {current}, d, m - 1)
    ensures s1.visited != s.visited ==> |AllCells(level) - s1.visited| < |AllCells(level) - s.visited|
    ensures s1.visited == s.visited ==> s1.pending == s0.pending
  {
    BfsDequeue(s, done, d, m, current, s0);
    NeighborEdges(level, current, neighbors);
    ScanDiscovers(s0, current, neighbors, d + 1, s1);
    ScanKeepsTree(level, src, s0, current, neighbors, d + 1, s1);
    ScanKeepsCover(s0, current, neighbors, d + 1, done + {current}, s1);
    ScanKeepsLayers(s0, current, neighbors, d, m - 1, s1);
    BfsReestablish(level, src, target, s, done, d, m, current, neighbors, s0, s1);
  }

  /** With the queue empty, the discovered cells are closed under moves, so a
      cell never discovered cannot be reached. */
  lemma BfsExhausted(level: array2<int>, src: Cell, target: Cell, s: Frontier,
                     done: set<Cell>, d: nat, m: nat)
    requires s.visited == s.parent.Keys && s.parent.Keys == s.depth.Keys && src in s.parent && s.pending == []
    requires Covered(s.visited, done, s.pending) && LayersClosed(level, done, s.depth) && target !in done
    ensures target !in s.parent && !Reachable(level, src, target)
  {
    assert Closed(level, s.visited);
    forall w | WalkBetween(level, src, target, w) ensures false {
      ClosedHoldsWalks(level, s.visited, w);
    }
  }

  // ---------------------------------------------------------------------
  // Depth-first search

  /** The state of the depth-first loop between two pops: done holds the
      cells already expanded and the target was not expanded. */
  ghost predicate DfsInv(level: array2<int>, src: Cell, target: Cell, s: Frontier, done: set<Cell>)
    reads level
  {
    && ParentTree(level, src, s.parent, s.depth)
    && s.visited == s.parent.Keys && done <= s.visited
    && Discovered(s.pending, s.visited)
    && Covered(s.visited, done, s.pending)
    && DoneClosed(level, done, s.visited)
    && target !in done
  }

  /** The search starts with only its root discovered. */
  lemma DfsStart(level: array2<int>, src: Cell, target: Cell)
    ensures DfsInv(level, src, target, Frontier([src], {src}, map[src := None], map[src := 0]), {})
  {
  }

  /** The cell on top of the stack has been discovered. */
  lemma DfsTop(level: array2<int>, src: Cell, target: Cell, s: Frontier, done: set<Cell>)
    requires Discovered(s.pending, s.visited) && s.visited == s.parent.Keys && s.pending != []
    ensures s.pending[|s.pending| - 1] in s.parent
  {
  }

  /** Once its neighbours are pushed, the expanded cell top joins the
      finished cells. */
  lemma DfsCloseCurrent(level: array2<int>, s: Frontier, s1: Frontier, done: set<Cell>, top: Cell)
    requires DoneClosed(level, done, s.visited) && s.visited <= s1.visited
    requires forall v :: Edge(level, top, v) ==> v in s1.visited
    ensures DoneClosed(level, done + {top}, s1.visited)
  {
  }

  /** Expanding the top of the stack when it is not the target: pop it
      (leaving s0), then push its undiscovered neighbours (leaving s1). The
      loop invariant holds again, with fewer undiscovered cells or a shorter
      stack. */
  lemma DfsExpand(level: array2<int>, src: Cell, target: Cell, s: Frontier, done: set<Cell>,
                  top: Cell, neighbors: seq<Cell>, nd: nat, s0: Frontier, s1: Frontier)
    requires DfsInv(level, src, target, s, done) && s.pending != []
    requires top == s.pending[|s.pending| - 1] && top != target
    requires forall q :: q in neighbors <==> Edge(level, top, q)
    requires s0 == Frontier(s.pending[..|s.pending| - 1], s.visited, s.parent, s.depth)
    requires top in s.depth && nd == s.depth[top] + 1 && s1 == Scan(s0, top, neighbors, nd)
    ensures DfsInv(level, src, target, s1, done + {top})
    ensures s1.visited != s.visited ==> |AllCells(level) - s1.visited| < |AllCells(level) - s.visited|
    ensures s1.visited == s.visited ==> s1.pending == s0.pending
  {
    var j := |s.pending| - 1;
    assert s.pending[..j] == s.pending[..j] + s.pending[j + 1..];
    CoverRemove(s.visited, done, s.pending, j);
    NeighborEdges(level, top, neighbors);
    ScanDiscovers(s0, top, neighbors, nd, s1);
    ScanKeepsTree(level, src, s0, top, neighbors, nd, s1);
    ScanKeepsCover(s0, top, neighbors, nd, done + {top}, s1);
    DfsCloseCurrent(level, s, s1, done, top);
    ScanShrinks(level, s0, s1, top, neighbors);
  }

  /** With the stack empty, the discovered cells are closed under moves, so a
      cell never discovered cannot be reached. */
  lemma DfsExhausted(level: array2<int>, src: Cell, target: Cell, s: Frontier, done: set<Cell>)
    requires s.visited == s.parent.Keys && src in s.parent && s.pending == []
    requires Covered(s.visited, done, s.pending) && DoneClosed(level, done, s.visited) && target !in done
    ensures target !in s.parent && !Reachable(level, src, target)
  {
    assert Closed(level, s.visited);
    forall w | WalkBetween(level, src, target, w) ensures false {
      ClosedHoldsWalks(level, s.visited, w);
    }
  }
}
