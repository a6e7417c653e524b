/** The maze grid: cell tags, the neighbour relation the pursuers search over,
    and walks along that relation. */
module Maze {

  /** A grid position as (row, column). */
  type Cell = (int, int)

  /** Cell tags of a level table. The start marker 3 of the level tables is
      walkable but is neither a pill nor empty. */
  const ItemEmpty: int := 0
  const ItemWall: int := 1
  const ItemPill: int := 2

  datatype Option<T> = None | Some(value: T)

  /** The outcome of an operation that looks a cell up in a dictionary:
      KeyError names the missing key. */
  datatype Result<T> = Ok(value: T) | KeyError(key: Cell)

  predicate InBounds(level: array2<int>, p: Cell) {
    0 <= p.0 < level.Length0 && 0 <= p.1 < level.Length1
  }

  /** A cell a pursuer may enter: inside the grid and not a wall. */
  predicate Open(level: array2<int>, p: Cell)
    reads level
  {
    InBounds(level, p) && level[p.0, p.1] != ItemWall
  }

  /** The neighbour offsets in exploration order: right, down, left, up. */
  const Directions: seq<Cell> := [(0, 1), (1, 0), (0, -1), (-1, 0)]

  function Step(p: Cell, d: Cell): Cell {
    (p.0 + d.0, p.1 + d.1)
  }

  /** The open cells among p shifted by each of the first k offsets, in the
      order of the offsets. */
  function OpenSteps(level: array2<int>, p: Cell, k: nat): seq<Cell>
    requires k <= |Directions|
    reads level
  {
    if k == 0 then [] else OpenSteps(level, p, k - 1) + StepIfOpen(level, p, Directions[k - 1])
  }

  /** p shifted by d, as a one-cell list when that cell is open, else empty. */
  function StepIfOpen(level: array2<int>, p: Cell, d: Cell): seq<Cell>
    reads level
  {
    var q := Step(p, d);
    if Open(level, q) then [q] else []
  }

  /** The cells a pursuer standing on p can move to next. */
  function Neighbors(level: array2<int>, p: Cell): seq<Cell>
    reads level
  {
    OpenSteps(level, p, |Directions|)
  }

  predicate IsUnitStep(p: Cell, q: Cell) {
    || (q.0 == p.0 && (q.1 == p.1 + 1 || q.1 == p.1 - 1))
    || (q.1 == p.1 && (q.0 == p.0 + 1 || q.0 == p.0 - 1))
  }

  /** One move of a pursuer: v is open and a unit step away from u. */
  predicate Edge(level: array2<int>, u: Cell, v: Cell)
    reads level
  {
    IsUnitStep(u, v) && Open(level, v)
  }

  /** Where the offset from p to q stands in Directions (4 if q is no unit step away). */
  function DirectionIndex(p: Cell, q: Cell): int {
    if q == Step(p, Directions[0]) then 0
    else if q == Step(p, Directions[1]) then 1
    else if q == Step(p, Directions[2]) then 2
    else if q == Step(p, Directions[3]) then 3
    else 4
  }

  /** The four offsets lead to four different cells, each a unit step away. */
  lemma DirectionIndexSpec(p: Cell, q: Cell)
    ensures DirectionIndex(p, q) < 4 <==> IsUnitStep(p, q)
    ensures DirectionIndex(p, q) < 4 ==> q == Step(p, Directions[DirectionIndex(p, q)])
    ensures forall m :: 0 <= m < 4 ==> DirectionIndex(p, Step(p, Directions[m])) == m
  {
  }

  /** Scanning the first k offsets yields at most k cells, each open and
      reached by one of those offsets. */
  lemma {:induction false} OpenStepsSound(level: array2<int>, p: Cell, k: nat)
    requires k <= 4
    ensures |OpenSteps(level, p, k)| <= k
    ensures forall q :: q in OpenSteps(level, p, k) ==> Open(level, q) && DirectionIndex(p, q) < k
  {
    if k > 0 {
      OpenStepsSound(level, p, k - 1);
      DirectionIndexSpec(p, p);
    }
  }

  /** Scanning the first k offsets lists every open cell they reach. */
  lemma {:induction false} OpenStepsComplete(level: array2<int>, p: Cell, k: nat)
    requires k <= 4
    ensures forall m :: 0 <= m < k && Open(level, Step(p, Directions[m])) ==>
              Step(p, Directions[m]) in OpenSteps(level, p, k)
  {
    if k > 0 {
      OpenStepsComplete(level, p, k - 1);
    }
  }

  /** Scanning the first k offsets lists its cells in the order of the offsets. */
  lemma {:induction false} OpenStepsOrdered(level: array2<int>, p: Cell, k: nat)
    requires k <= 4
    ensures forall i, j :: 0 <= i < j < |OpenSteps(level, p, k)| ==>
              DirectionIndex(p, OpenSteps(level, p, k)[i]) < DirectionIndex(p, OpenSteps(level, p, k)[j])
  {
    if k > 0 {
      OpenStepsOrdered(level, p, k - 1);
      OpenStepsSound(level, p, k - 1);
      DirectionIndexSpec(p, p);
      var prev := OpenSteps(level, p, k - 1);
      var ns := OpenSteps(level, p, k);
      forall i, j | 0 <= i < j < |ns| ensures DirectionIndex(p, ns[i]) < DirectionIndex(p, ns[j]) {
        if j >= |prev| {
          assert ns[j] == Step(p, Directions[k - 1]) && ns[i] == prev[i];
        } else {
          assert ns[i] == prev[i] && ns[j] == prev[j];
        }
      }
    }
  }

  /** The neighbours of p are exactly the open cells one unit step away, at
      most four of them, listed right, down, left, up. */
  lemma NeighborsSpec(level: array2<int>, p: Cell)
    ensures |Neighbors(level, p)| <= 4
    ensures forall q :: q in Neighbors(level, p) ==> Edge(level, p, q)
    ensures forall q :: Edge(level, p, q) ==> q in Neighbors(level, p)
    ensures p !in Neighbors(level, p)
    ensures forall i, j :: 0 <= i < j < |Neighbors(level, p)| ==>
              DirectionIndex(p, Neighbors(level, p)[i]) < DirectionIndex(p, Neighbors(level, p)[j])
  {
    OpenStepsSound(level, p, 4);
    OpenStepsComplete(level, p, 4);
    OpenStepsOrdered(level, p, 4);
    forall q ensures DirectionIndex(p, q) < 4 <==> IsUnitStep(p, q)
      ensures DirectionIndex(p, q) < 4 ==> q == Step(p, Directions[DirectionIndex(p, q)])
    {
      DirectionIndexSpec(p, q);
    }
  }

  /** Consecutive cells of w are neighbours. */
  ghost predicate IsWalk(level: array2<int>, w: seq<Cell>)
    reads level
  {
    |w| >= 1 && forall i :: 0 <= i < |w| - 1 ==> Edge(level, w[i], w[i + 1])
  }

  ghost predicate WalkBetween(level: array2<int>, a: Cell, t: Cell, w: seq<Cell>)
    reads level
  {
    IsWalk(level, w) && w[0] == a && w[|w| - 1] == t
  }

  ghost predicate Reachable(level: array2<int>, a: Cell, t: Cell)
    reads level
  {
    exists w :: WalkBetween(level, a, t, w)
  }

  /** w is a walk from a to t with no more cells than any other such walk. */
  ghost predicate IsShortestWalk(level: array2<int>, a: Cell, t: Cell, w: seq<Cell>)
    reads level
  {
    WalkBetween(level, a, t, w) && forall v :: WalkBetween(level, a, t, v) ==> |w| <= |v|
  }

  /** The shortest walks from a to t take n moves. */
  ghost predicate DistanceIs(level: array2<int>, a: Cell, t: Cell, n: int)
    reads level
  {
    exists w :: IsShortestWalk(level, a, t, w) && |w| == n + 1
  }

  /** b is the second cell of some shortest walk from a to t. */
  ghost predicate OnShortestWalk(level: array2<int>, a: Cell, b: Cell, t: Cell)
    reads level
  {
    exists w :: IsShortestWalk(level, a, t, w) && |w| >= 2 && w[1] == b
  }

  /** A set of cells that holds every neighbour of each of its cells. */
  ghost predicate Closed(level: array2<int>, s: set<Cell>)
    reads level
  {
    forall u, v :: u in s && Edge(level, u, v) ==> v in s
  }

  /** A walk that starts inside a closed set never leaves it. */
  lemma {:induction false} ClosedHoldsWalks(level: array2<int>, s: set<Cell>, w: seq<Cell>)
    requires Closed(level, s)
    requires IsWalk(level, w) && w[0] in s
    ensures w[|w| - 1] in s
  {
    if |w| > 1 {
      var w' := w[..|w| - 1];
      ClosedHoldsWalks(level, s, w');
      assert Edge(level, w[|w| - 2], w[|w| - 1]);
    }
  }

  /** Dropping the first cell of a shortest walk leaves a shortest walk. */
  lemma ShortestWalkTail(level: array2<int>, a: Cell, t: Cell, w: seq<Cell>)
    requires IsShortestWalk(level, a, t, w) && |w| >= 2
    ensures IsShortestWalk(level, w[1], t, w[1..])
  {
    var tail := w[1..];
    assert forall i :: 0 <= i < |tail| - 1 ==> Edge(level, tail[i], tail[i + 1]) by {
      forall i | 0 <= i < |tail| - 1 ensures Edge(level, tail[i], tail[i + 1]) {
        assert tail[i + 1] == w[i + 2] && tail[i] == w[i + 1];
      }
    }
    forall v | WalkBetween(level, w[1], t, v) ensures |tail| <= |v| {
      var u := [a] + v;
      forall i | 0 <= i < |u| - 1 ensures Edge(level, u[i], u[i + 1]) {
        if i == 0 {
          assert Edge(level, w[0], w[1]);
        } else {
          assert u[i + 1] == v[i] && u[i] == v[i - 1];
        }
      }
      assert WalkBetween(level, a, t, u);
    }
  }

  /** When t is a neighbour of a, the only shortest walk from a to t is the
      single move [a, t]. */
  lemma AdjacentShortest(level: array2<int>, a: Cell, t: Cell)
    requires Edge(level, a, t)
    ensures IsShortestWalk(level, a, t, [a, t])
    ensures forall b :: OnShortestWalk(level, a, b, t) ==> b == t
  {
  }

  /** Moving to the second cell of a shortest walk brings t one move closer. */
  lemma StepShortensDistance(level: array2<int>, a: Cell, b: Cell, t: Cell, n: int)
    requires OnShortestWalk(level, a, b, t)
    requires DistanceIs(level, a, t, n)
    ensures n >= 1 && DistanceIs(level, b, t, n - 1)
  {
    var w :| IsShortestWalk(level, a, t, w) && |w| >= 2 && w[1] == b;
    var w0 :| IsShortestWalk(level, a, t, w0) && |w0| == n + 1;
    assert |w| <= |w0| && |w0| <= |w|;
    ShortestWalkTail(level, a, t, w);
    assert IsShortestWalk(level, b, t, w[1..]) && |w[1..]| == n;
  }
}
