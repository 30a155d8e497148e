/**
 A* search with the Manhattan heuristic. The open set is an array of
 entries keyed by f = g + h, sorted each round and taken from the front;
 the end is recognised when its entry is taken, before the cell would be
 closed. Otherwise the cell is closed and each open neighbour not closed
 whose g improves gets the new g and the cell as parent; it is added to
 the open set only when it has no entry yet, so an existing entry keeps
 the key it was pushed with.
 */
module AStar {
  import opened Grid
  import opened Frontier

  /** One entry per cell; entries are for open, unclosed, scored cells that
      are the start or have a parent; before the first close only the
      start is open. */
  ghost predicate OpenSetInv(g: Board, closed: set<Pos>, openSet: seq<Entry>, parent: map<Pos, Pos>, gScore: map<Pos, nat>) {
    DistinctPositions(openSet)
    && forall i :: 0 <= i < |openSet| ==>
         Open(g, openSet[i].pos) && (openSet[i].pos == StartPos || openSet[i].pos in parent)
         && openSet[i].pos in gScore && openSet[i].pos !in closed
         && (closed == {} ==> openSet[i].pos == StartPos)
  }

  ghost predicate Inv(g: Board, closed: set<Pos>, parent: map<Pos, Pos>, openSet: seq<Entry>, gScore: map<Pos, nat>, rank: map<Pos, nat>, counter: nat) {
    Ranked(g, closed, rank, counter) && Linked(closed, parent, rank)
    && OpenSetInv(g, closed, openSet, parent, gScore) && Pending(closed, openSet, gScore)
    && Reached(g, closed, closed, gScore)
  }

  /** Search from the start, lowest f first; on taking the end, walk the
      parent links back. The path returned is a walk from start to end; no
      path means no walk exists. */
  method AStarSearch(g: Board) returns (path: Option<seq<Pos>>)
    requires WellFormed(g)
    ensures path.Some? ==> WalkFromTo(g, path.value, StartPos, EndPos)
    ensures path.None? ==> forall w :: !WalkFromTo(g, w, StartPos, EndPos)
  {
    var gScore: map<Pos, nat> := map[StartPos := 0];
    var openSet := [Entry(StartPos, Heuristic(StartPos, EndPos))];
    var closed: set<Pos> := {};
    var parent: map<Pos, Pos> := map[];
    ghost var rank: map<Pos, nat> := map[];
    ghost var counter: nat := 0;
    assert openSet[0] in openSet;
    while |openSet| > 0
      invariant Inv(g, closed, parent, openSet, gScore, rank, counter)
      decreases AllCells - closed
    {
      var sorted := SortByKey(openSet);
      SortKeepsDistinct(openSet);
      SortedOpenSet(g, closed, parent, openSet, sorted, gScore, rank, counter);
      var current := sorted[0];
      openSet := sorted[1..];
      MarkDone(g, closed, parent, rank, counter, current.pos);
      if current.pos == EndPos {
        ghost var finished := rank[current.pos := counter];
        var p := ReconstructPath(parent, current.pos, finished);
        ChainFromStart(g, parent, finished, p, current.pos);
        return Some(p);
      }
      ghost var before := closed;
      closed := closed + {current.pos};
      rank := rank[current.pos := counter];
      counter := counter + 1;
      openSet, gScore, parent := Expand(g, current.pos, closed, openSet, gScore, parent, rank, counter);
      FewerOutside(before, closed);
    }
    NothingPending(g, closed, gScore);
    return None;
  }

  /** Sorting the open set, then taking its front entry: the rest keeps
      the invariants once the front cell counts as closed. */
  lemma SortedOpenSet(g: Board, closed: set<Pos>, parent: map<Pos, Pos>, openSet: seq<Entry>, sorted: seq<Entry>, gScore: map<Pos, nat>, rank: map<Pos, nat>, counter: nat)
    requires Inv(g, closed, parent, openSet, gScore, rank, counter) && |openSet| > 0
    requires multiset(sorted) == multiset(openSet) && DistinctPositions(sorted)
    ensures |sorted| == |openSet|
    ensures Open(g, sorted[0].pos) && (sorted[0].pos == StartPos || sorted[0].pos in parent)
    ensures sorted[0].pos in gScore && sorted[0].pos !in closed && (closed == {} ==> sorted[0].pos == StartPos)
    ensures OpenSetInv(g, closed + {sorted[0].pos}, sorted[1..], parent, gScore)
    ensures Pending(closed + {sorted[0].pos}, sorted[1..], gScore)
  {
    assert |sorted| == |multiset(sorted)| == |openSet|;
    forall i | 0 <= i < |sorted|
      ensures sorted[i] in openSet
    {
      assert sorted[i] in multiset(openSet);
    }
    var rest := sorted[1..];
    assert forall i :: 0 <= i < |rest| ==> rest[i] == sorted[i + 1] && rest[i].pos != sorted[0].pos;
    forall p | p in gScore && p !in closed + {sorted[0].pos}
      ensures HasPosition(rest, p)
    {
      SameCells(openSet, sorted, p);
      ShiftPositions(sorted, p);
    }
  }

  /** Score the neighbours of the just-closed `current` in direction
      order. */
  method Expand(g: Board, current: Pos, closed: set<Pos>, openSet0: seq<Entry>, gScore0: map<Pos, nat>, parent0: map<Pos, Pos>, ghost rank: map<Pos, nat>, ghost counter: nat)
    returns (openSet: seq<Entry>, gScore: map<Pos, nat>, parent: map<Pos, Pos>)
    requires WellFormed(g) && current in closed && current in gScore0
    requires Ranked(g, closed, rank, counter) && Linked(closed, parent0, rank)
    requires OpenSetInv(g, closed, openSet0, parent0, gScore0) && Pending(closed, openSet0, gScore0)
    requires Reached(g, closed - {current}, closed, gScore0)
    ensures Inv(g, closed, parent, openSet, gScore, rank, counter)
  {
    var neighbors := GetNeighbors(current);
    openSet, gScore, parent := openSet0, gScore0, parent0;
    var k := 0;
    while k < |neighbors|
      invariant 0 <= k <= |neighbors|
      invariant current in gScore && gScore0.Keys <= gScore.Keys
      invariant Linked(closed, parent, rank)
      invariant OpenSetInv(g, closed, openSet, parent, gScore) && Pending(closed, openSet, gScore)
      invariant forall i :: 0 <= i < k ==> Settled(g, closed, gScore, neighbors[i])
    {
      ghost var before := gScore;
      openSet, gScore, parent := ScoreNeighbor(g, current, neighbors[k], closed, openSet, gScore, parent, rank, counter);
      SettledStep(g, closed, before, gScore, neighbors, k);
      k := k + 1;
    }
    AllSettled(g, current, closed, gScore0, gScore);
  }

  /** One step of the neighbour loop: a neighbour `n` that is neither
      closed nor a wall, and whose g through `current` is new or better,
      takes that g and `current` as parent, and joins the open set with
      f = g + h unless it already has an entry there. */
  method ScoreNeighbor(g: Board, current: Pos, n: Pos, closed: set<Pos>, openSet0: seq<Entry>, gScore0: map<Pos, nat>, parent0: map<Pos, Pos>, ghost rank: map<Pos, nat>, ghost counter: nat)
    returns (openSet: seq<Entry>, gScore: map<Pos, nat>, parent: map<Pos, Pos>)
    requires WellFormed(g) && current in closed && current in gScore0 && InBounds(n) && Adjacent(current, n)
    requires Ranked(g, closed, rank, counter) && Linked(closed, parent0, rank)
    requires OpenSetInv(g, closed, openSet0, parent0, gScore0) && Pending(closed, openSet0, gScore0)
    ensures Linked(closed, parent, rank)
    ensures OpenSetInv(g, closed, openSet, parent, gScore) && Pending(closed, openSet, gScore)
    ensures gScore0.Keys <= gScore.Keys
    ensures forall x :: Settled(g, closed, gScore0, x) ==> Settled(g, closed, gScore, x)
    ensures Settled(g, closed, gScore, n)
    ensures n in gScore && n !in closed && !g[n.row][n.col].isWall ==> gScore[n] <= gScore0[current] + 1
    ensures n !in closed && !g[n.row][n.col].isWall && (n !in gScore0 || gScore0[current] + 1 < gScore0[n]) ==>
              gScore == gScore0[n := gScore0[current] + 1] && parent == parent0[n := current]
              && (HasPosition(openSet0, n) ==> openSet == openSet0)
              && (!HasPosition(openSet0, n) ==>
                    openSet == openSet0 + [Entry(n, gScore0[current] + 1 + Heuristic(n, EndPos))])
    ensures n in closed || g[n.row][n.col].isWall || (n in gScore0 && gScore0[n] <= gScore0[current] + 1) ==>
              gScore == gScore0 && parent == parent0 && openSet == openSet0
  {
    OpenIsNotWall(g, n);
    openSet, gScore, parent := openSet0, gScore0, parent0;
    if n in closed || g[n.row][n.col].isWall {
      return;
    }
    var tentative := gScore0[current] + 1;
    if n !in gScore0 || tentative < gScore0[n] {
      LinkFresh(current, n, closed, parent0, rank);
      parent := parent0[n := current];
      gScore := gScore0[n := tentative];
      if !HasPosition(openSet0, n) {
        var e := Entry(n, tentative + Heuristic(n, EndPos));
        AppendPositions(openSet0, e);
        AppendDistinct(openSet0, e);
        openSet := openSet0 + [e];
        assert forall i :: 0 <= i < |openSet0| ==> openSet[i] == openSet0[i];
      }
    }
  }
}
