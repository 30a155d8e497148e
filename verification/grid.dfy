/**
 The pathfinding board: a 25 x 25 grid of cells, some of them walls, with a
 fixed start cell (row 5, column 5) and end cell (row 15, column 15). This
 module holds what the four searches share: bounds, the four-neighbourhood
 in its fixed direction order, the Manhattan heuristic, walks over open
 cells, and the walk back along a parent map.
 */
module Grid {

  const GridSize: int := 25

  /** A cell coordinate; the script keys its maps by the text `row-col`,
      which names each in-bounds cell uniquely. */
  datatype Pos = Pos(row: int, col: int)

  /** One grid cell as the board stores it. Only `isWall` is read by the
      searches. */
  datatype Cell = Cell(row: int, col: int, isWall: bool, isVisited: bool)

  type Board = seq<seq<Cell>>

  datatype Option<T> = None | Some(value: T)

  const StartPos: Pos := Pos(5, 5)
  const EndPos: Pos := Pos(15, 15)

  predicate InBounds(p: Pos) {
    0 <= p.row < GridSize && 0 <= p.col < GridSize
  }

  /** A cell a path may use: on the board and not a wall. */
  predicate Open(g: Board, p: Pos) {
    InBounds(p) && p.row < |g| && p.col < |g[p.row]| && !g[p.row][p.col].isWall
  }

  /** The board as the page keeps it: 25 rows of 25 cells, and neither the
      start nor the end cell is ever a wall (clicks on them are ignored and
      the maze generator skips them). */
  predicate WellFormed(g: Board) {
    |g| == GridSize && (forall r :: 0 <= r < GridSize ==> |g[r]| == GridSize)
    && Open(g, StartPos) && Open(g, EndPos)
  }

  /** An in-bounds cell of a well-formed board is open exactly when it is
      not a wall. */
  lemma OpenIsNotWall(g: Board, p: Pos)
    requires WellFormed(g) && InBounds(p)
    ensures p.row < |g| && p.col < |g[p.row]|
    ensures Open(g, p) <==> !g[p.row][p.col].isWall
  {
  }

  function Abs(x: int): nat {
    if x < 0 then -x else x
  }

  /** Manhattan distance between two cells. */
  function Heuristic(a: Pos, b: Pos): (r: nat)
    ensures r == 0 <==> a == b
  {
    Abs(a.row - b.row) + Abs(a.col - b.col)
  }

  /** Two cells share a side. */
  predicate Adjacent(a: Pos, b: Pos) {
    Heuristic(a, b) == 1
  }

  /** Row and column offsets in the order the neighbours are produced:
      up, down, left, right. */
  const Directions: seq<(int, int)> := [(-1, 0), (1, 0), (0, -1), (0, 1)]

  /** The position of `q` relative to `p` in that order (4 when `q` is not
      beside `p`). */
  function DirIndex(p: Pos, q: Pos): nat {
    if q == Pos(p.row - 1, p.col) then 0
    else if q == Pos(p.row + 1, p.col) then 1
    else if q == Pos(p.row, p.col - 1) then 2
    else if q == Pos(p.row, p.col + 1) then 3
    else 4
  }

  lemma AdjacentDirIndex(p: Pos, q: Pos)
    ensures Adjacent(p, q) <==> DirIndex(p, q) < 4
  {
  }

  /** The candidates for directions `Directions[k..]` that stay on the board. */
  function NeighborsFrom(p: Pos, k: nat): (r: seq<Pos>)
    requires k <= |Directions|
    ensures |r| <= |Directions| - k
    ensures forall i :: 0 <= i < |r| ==> InBounds(r[i]) && Adjacent(p, r[i]) && k <= DirIndex(p, r[i])
    ensures forall i, j :: 0 <= i < j < |r| ==> DirIndex(p, r[i]) < DirIndex(p, r[j])
    decreases |Directions| - k
  {
    if k == |Directions| then []
    else
      var q := Pos(p.row + Directions[k].0, p.col + Directions[k].1);
      assert DirIndex(p, q) == k;
      var rest := NeighborsFrom(p, k + 1);
      if InBounds(q) then [q] + rest else rest
  }

  /** Every on-board neighbour in directions `k` onwards is produced. */
  lemma {:induction false} NeighborsFromComplete(p: Pos, k: nat, q: Pos)
    requires k <= |Directions| && InBounds(q) && Adjacent(p, q) && k <= DirIndex(p, q)
    ensures q in NeighborsFrom(p, k)
    decreases |Directions| - k
  {
    AdjacentDirIndex(p, q);
    if DirIndex(p, q) > k {
      NeighborsFromComplete(p, k + 1, q);
    }
  }

  /** The board cells beside `p`, in the order up, down, left, right. */
  function GetNeighbors(p: Pos): (r: seq<Pos>)
    ensures |r| <= 4
    ensures forall i :: 0 <= i < |r| ==> InBounds(r[i]) && Adjacent(p, r[i])
    ensures forall q :: InBounds(q) && Adjacent(p, q) ==> q in r
    ensures forall i, j :: 0 <= i < j < |r| ==> DirIndex(p, r[i]) < DirIndex(p, r[j])
  {
    forall q | InBounds(q) && Adjacent(p, q)
      ensures q in NeighborsFrom(p, 0)
    {
      NeighborsFromComplete(p, 0, q);
    }
    NeighborsFrom(p, 0)
  }

  /** The neighbour order has no repeats. */
  lemma NeighborsDistinct(p: Pos)
    ensures forall i, j :: 0 <= i < j < |GetNeighbors(p)| ==> GetNeighbors(p)[i] != GetNeighbors(p)[j]
  {
  }

  /** A walk: a non-empty run of open cells, each beside the one before. */
  ghost predicate IsWalk(g: Board, w: seq<Pos>) {
    |w| > 0
    && (forall i :: 0 <= i < |w| ==> Open(g, w[i]))
    && (forall i :: 0 < i < |w| ==> Adjacent(w[i - 1], w[i]))
  }

  ghost predicate WalkFromTo(g: Board, w: seq<Pos>, a: Pos, b: Pos) {
    IsWalk(g, w) && w[0] == a && w[|w| - 1] == b
  }

  /** The heuristic never overestimates: a walk needs at least as many
      steps as the Manhattan distance between its ends. */
  lemma {:induction false} HeuristicAdmissible(g: Board, w: seq<Pos>)
    requires IsWalk(g, w)
    ensures Heuristic(w[0], w[|w| - 1]) <= |w| - 1
    decreases |w|
  {
    if |w| > 1 {
      var init := w[..|w| - 1];
      assert IsWalk(g, init) by {
        assert forall i :: 0 <= i < |init| ==> init[i] == w[i];
      }
      HeuristicAdmissible(g, init);
      HeuristicConsistent(w[|w| - 1], w[|w| - 2], w[0]);
    }
  }

  /** One step changes the heuristic by at most one. */
  lemma HeuristicConsistent(a: Pos, b: Pos, t: Pos)
    requires Adjacent(a, b)
    ensures Heuristic(t, a) <= Heuristic(t, b) + 1
    ensures Heuristic(t, b) <= Heuristic(t, a) + 1
  {
  }

  /** Cells of a set `s` whose open neighbours all lie in `s`. */
  ghost predicate ClosedUnder(g: Board, s: set<Pos>) {
    forall c, n :: c in s && Adjacent(c, n) && Open(g, n) ==> n in s
  }

  /** A walk that starts in a set closed under open adjacency ends in it. */
  lemma {:induction false} WalkStaysInside(g: Board, w: seq<Pos>, s: set<Pos>)
    requires IsWalk(g, w) && w[0] in s && ClosedUnder(g, s)
    ensures w[|w| - 1] in s
    decreases |w|
  {
    if |w| > 1 {
      var init := w[..|w| - 1];
      assert IsWalk(g, init) by {
        assert forall i :: 0 <= i < |init| ==> init[i] == w[i];
      }
      WalkStaysInside(g, init, s);
      assert Adjacent(w[|w| - 2], w[|w| - 1]) && Open(g, w[|w| - 1]);
    }
  }

  /** When the closed region holds the start but not the end, no walk joins
      them. */
  lemma NoWalkOutOf(g: Board, s: set<Pos>)
    requires StartPos in s && EndPos !in s && ClosedUnder(g, s)
    ensures forall w :: !WalkFromTo(g, w, StartPos, EndPos)
  {
    forall w | WalkFromTo(g, w, StartPos, EndPos)
      ensures false
    {
      WalkStaysInside(g, w, s);
    }
  }

  /** Every parent link leads to a cell of strictly smaller rank; ranks
      are the ghost witness that following parents ends. */
  ghost predicate RankDecreases(parent: map<Pos, Pos>, rank: map<Pos, nat>) {
    forall p :: p in parent && p in rank ==> parent[p] in rank && rank[parent[p]] < rank[p]
  }

  /** Follow parent links back from `endNode`, putting each cell in front,
      until a cell without a parent. */
  method ReconstructPath(parent: map<Pos, Pos>, endNode: Pos, ghost rank: map<Pos, nat>) returns (path: seq<Pos>)
    requires endNode in rank && RankDecreases(parent, rank)
    ensures |path| > 0 && path[|path| - 1] == endNode && path[0] !in parent
    ensures forall i :: 0 < i < |path| ==> path[i] in parent && parent[path[i]] == path[i - 1]
    ensures forall i :: 0 <= i < |path| ==> path[i] in rank
  {
    var current := endNode;
    path := [current];
    while current in parent
      invariant current in rank && |path| > 0 && path[0] == current && path[|path| - 1] == endNode
      invariant forall i :: 0 < i < |path| ==> path[i] in parent && parent[path[i]] == path[i - 1]
      invariant forall i :: 0 <= i < |path| ==> path[i] in rank
      decreases rank[current]
    {
      current := parent[current];
      path := [current] + path;
    }
  }

  /** A parent chain whose links join adjacent open cells is a walk. */
  lemma ChainIsWalk(g: Board, parent: map<Pos, Pos>, path: seq<Pos>)
    requires |path| > 0
    requires forall i :: 0 < i < |path| ==> path[i] in parent && parent[path[i]] == path[i - 1]
    requires forall p :: p in parent ==> Adjacent(parent[p], p)
    requires forall i :: 0 <= i < |path| ==> Open(g, path[i])
    ensures IsWalk(g, path)
  {
  }

  /** Along a chain where each link adds exactly one to `dist`, starting at
      distance 0, the last cell's distance is the number of steps. */
  lemma {:induction false} ChainLength(path: seq<Pos>, dist: map<Pos, nat>)
    requires |path| > 0 && (forall i :: 0 <= i < |path| ==> path[i] in dist)
    requires dist[path[0]] == 0
    requires forall i :: 0 < i < |path| ==> dist[path[i]] == dist[path[i - 1]] + 1
    ensures dist[path[|path| - 1]] == |path| - 1
    decreases |path|
  {
    if |path| > 1 {
      ChainLength(path[..|path| - 1], dist);
    }
  }

  /** Every board cell, the bound on the searches' visited sets. */
  const AllCells: set<Pos> := set r, c | 0 <= r < GridSize && 0 <= c < GridSize :: Pos(r, c)

  lemma InBoundsInAllCells(p: Pos)
    requires InBounds(p)
    ensures p in AllCells
  {
    assert p == Pos(p.row, p.col);
  }

  /** Adding board cells to a set shrinks the set of board cells outside
      it: the measure on which the searches' main loops end. */
  lemma FewerOutside(before: set<Pos>, after: set<Pos>)
    requires before <= after && forall p :: p in after - before ==> InBounds(p)
    ensures AllCells - after <= AllCells - before
    ensures after != before ==> AllCells - after < AllCells - before
  {
    if after != before {
      var p :| p in after && p !in before;
      InBoundsInAllCells(p);
      assert p in AllCells - before && p !in AllCells - after;
    }
  }

  /** The cells a search has finished with (visited, or closed), ranked
      below `counter` in the order they were finished: all open, the end
      not yet among them, and the start the first of them. */
  ghost predicate Ranked(g: Board, done: set<Pos>, rank: map<Pos, nat>, counter: nat) {
    rank.Keys == done && EndPos !in done
    && (forall p :: p in done ==> Open(g, p) && rank[p] < counter)
    && (done != {} ==> StartPos in done)
  }

  /** Parents are finished neighbours; a finished cell's parent was
      finished before it; every finished cell but the start has a parent,
      and the start never gets one. */
  ghost predicate Linked(done: set<Pos>, parent: map<Pos, Pos>, rank: map<Pos, nat>) {
    StartPos !in parent && RankDecreases(parent, rank)
    && (forall p :: p in parent ==> parent[p] in done && Adjacent(parent[p], p))
    && (forall p :: p in done ==> p == StartPos || p in parent)
  }

  /** Recording a finished cell as the parent of an unfinished neighbour
      keeps the parent links sound. */
  lemma LinkFresh(current: Pos, n: Pos, done: set<Pos>, parent: map<Pos, Pos>, rank: map<Pos, nat>)
    requires current in done && n !in done && Adjacent(current, n)
    requires rank.Keys == done && StartPos in done && Linked(done, parent, rank)
    ensures Linked(done, parent[n := current], rank)
  {
  }

  /** Finishing a cell that is the start or has a parent gives it the next
      rank and keeps the parent links sound. */
  lemma MarkDone(g: Board, done: set<Pos>, parent: map<Pos, Pos>, rank: map<Pos, nat>, counter: nat, current: Pos)
    requires Ranked(g, done, rank, counter) && Linked(done, parent, rank)
    requires current !in done && Open(g, current) && (current == StartPos || current in parent)
    requires done == {} ==> current == StartPos
    ensures Linked(done + {current}, parent, rank[current := counter])
    ensures forall p :: p in rank[current := counter] ==> Open(g, p) && (p == StartPos || p in parent)
    ensures current != EndPos ==> Ranked(g, done + {current}, rank[current := counter], counter + 1)
  {
  }

  /** A path rebuilt from a parent map whose every ranked cell but the start
      has a parent, whose links join adjacent cells and whose ranked cells
      are open, is a walk from the start to the cell it was rebuilt from. */
  lemma ChainFromStart(g: Board, parent: map<Pos, Pos>, rank: map<Pos, nat>, path: seq<Pos>, endNode: Pos)
    requires forall p :: p in parent ==> Adjacent(parent[p], p)
    requires forall p :: p in rank ==> Open(g, p) && (p == StartPos || p in parent)
    requires |path| > 0 && path[|path| - 1] == endNode && path[0] !in parent
    requires forall i :: 0 < i < |path| ==> path[i] in parent && parent[path[i]] == path[i - 1]
    requires forall i :: 0 <= i < |path| ==> path[i] in rank
    ensures WalkFromTo(g, path, StartPos, endNode)
  {
    ChainIsWalk(g, parent, path);
  }
}
