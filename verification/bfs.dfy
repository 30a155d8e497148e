/**
 Breadth-first search from the start cell. Cells are marked visited when
 they are discovered and enqueued; the end cell is recognised when it is
 dequeued. A ghost map `dist` records each visited cell's discovery depth,
 which is both the rank that makes the parent walk terminate and the
 measure of the shortest-path argument.
 */
module Bfs {
  import opened Grid

  /** Depths are recorded exactly for the visited cells, the start has
      depth 0, and only open cells are ever visited. */
  ghost predicate DistInv(g: Board, visited: set<Pos>, dist: map<Pos, nat>) {
    dist.Keys == visited && StartPos in visited && dist[StartPos] == 0
    && (forall p :: p in visited ==> Open(g, p))
  }

  /** Every visited cell but the start has a parent: a visited neighbour
      one level shallower. */
  ghost predicate ParentInv(visited: set<Pos>, parent: map<Pos, Pos>, dist: map<Pos, nat>) {
    parent.Keys == visited - {StartPos}
    && forall p :: p in parent ==>
         parent[p] in visited && Adjacent(parent[p], p)
         && p in dist && parent[p] in dist && dist[p] == dist[parent[p]] + 1
  }

  /** The queue holds distinct visited cells in non-decreasing depth, all
      within one level of its head. */
  ghost predicate QueueInv(visited: set<Pos>, queue: seq<Pos>, dist: map<Pos, nat>) {
    (forall i :: 0 <= i < |queue| ==> queue[i] in visited && queue[i] in dist)
    && (forall i, j :: 0 <= i < j < |queue| ==> queue[i] != queue[j])
    && (forall i, j :: 0 <= i < j < |queue| && queue[i] in dist && queue[j] in dist ==>
          dist[queue[i]] <= dist[queue[j]])
    && (forall j :: 0 <= j < |queue| && queue[j] in dist && queue[0] in dist ==>
          dist[queue[j]] <= dist[queue[0]] + 1)
  }

  /** No visited cell lies more than one level below the queue's head. */
  ghost predicate FrontierInv(visited: set<Pos>, queue: seq<Pos>, dist: map<Pos, nat>) {
    |queue| > 0 && queue[0] in dist ==>
      forall p :: p in visited && p in dist ==> dist[p] <= dist[queue[0]] + 1
  }

  /** A visited cell no longer queued has had all its open neighbours
      discovered, at most one level deeper. */
  ghost predicate ClosureInv(g: Board, visited: set<Pos>, queue: seq<Pos>, dist: map<Pos, nat>) {
    forall c, n :: c in visited && c !in queue && Adjacent(c, n) && Open(g, n) ==>
      n in visited && n in dist && c in dist && dist[n] <= dist[c] + 1
  }

  /** The end cell, once discovered, waits in the queue: the search stops
      when it is dequeued. */
  ghost predicate EndInv(visited: set<Pos>, queue: seq<Pos>) {
    EndPos in visited ==> EndPos in queue
  }

  ghost predicate Inv(g: Board, visited: set<Pos>, parent: map<Pos, Pos>, queue: seq<Pos>, dist: map<Pos, nat>) {
    DistInv(g, visited, dist) && ParentInv(visited, parent, dist) && QueueInv(visited, queue, dist)
    && FrontierInv(visited, queue, dist) && ClosureInv(g, visited, queue, dist) && EndInv(visited, queue)
  }

  /** Search from the start; on reaching the end, walk the parent links
      back. The path returned is a walk from start to end no longer than
      any other; no path means no walk exists. */
  method BreadthFirstSearch(g: Board) returns (path: Option<seq<Pos>>)
    requires WellFormed(g)
    ensures path.Some? ==> WalkFromTo(g, path.value, StartPos, EndPos)
    ensures path.Some? ==> forall w :: WalkFromTo(g, w, StartPos, EndPos) ==> |path.value| <= |w|
    ensures path.None? ==> forall w :: !WalkFromTo(g, w, StartPos, EndPos)
  {
    var queue := [StartPos];
    var visited := {StartPos};
    var parent: map<Pos, Pos> := map[];
    ghost var dist: map<Pos, nat> := map[StartPos := 0];
    while |queue| > 0
      invariant Inv(g, visited, parent, queue, dist)
      decreases AllCells - visited, |queue|
    {
      var current := queue[0];
      var rest := queue[1..];
      assert queue == [current] + rest;
      if current == EndPos {
        var p := ReconstructPath(parent, current, dist);
        RebuiltPath(g, visited, parent, dist, p);
        EndDepthIsLeast(g, visited, parent, queue, dist);
        return Some(p);
      }
      ghost var before := visited;
      visited, parent, queue, dist := Expand(g, current, rest, visited, parent, dist);
      FewerOutside(before, visited);
    }
    NothingQueued(g, visited, parent, dist);
    return None;
  }

  /** On a board without walls the search finds a path of 21 cells: the
      Manhattan distance 20 from (5, 5) to (15, 15) plus one. A staircase
      walk of that length exists, and no walk can be shorter. */
  method OpenBoardSearch(g: Board) returns (path: Option<seq<Pos>>)
    requires WellFormed(g)
    requires forall r, c :: 0 <= r < GridSize && 0 <= c < GridSize ==> !g[r][c].isWall
    ensures path.Some? && |path.value| == 21
  {
    path := BreadthFirstSearch(g);
    var w := seq(21, i => if i <= 10 then Pos(5 + i, 5) else Pos(15, 5 + i - 10));
    assert forall i :: 0 <= i < 21 ==> Open(g, w[i]);
    assert forall i :: 0 < i < 21 ==> Adjacent(w[i - 1], w[i]);
    assert WalkFromTo(g, w, StartPos, EndPos);
    HeuristicAdmissible(g, path.value);
  }

  /** With the queue empty the visited region is closed and lacks the end,
      so no walk reaches the end. */
  lemma NothingQueued(g: Board, visited: set<Pos>, parent: map<Pos, Pos>, dist: map<Pos, nat>)
    requires Inv(g, visited, parent, [], dist)
    ensures forall w :: !WalkFromTo(g, w, StartPos, EndPos)
  {
    assert ClosedUnder(g, visited);
    NoWalkOutOf(g, visited);
  }

  /** Any walk from the start no longer than the head's depth ends at a
      visited cell whose depth is at most the walk's length. */
  lemma {:induction false} WalkDepth(g: Board, visited: set<Pos>, parent: map<Pos, Pos>, queue: seq<Pos>, dist: map<Pos, nat>, w: seq<Pos>)
    requires Inv(g, visited, parent, queue, dist) && |queue| > 0
    requires IsWalk(g, w) && w[0] == StartPos && |w| - 1 <= dist[queue[0]]
    ensures w[|w| - 1] in visited && dist[w[|w| - 1]] <= |w| - 1
    decreases |w|
  {
    if |w| > 1 {
      var init := w[..|w| - 1];
      assert IsWalk(g, init) by {
        assert forall i :: 0 <= i < |init| ==> init[i] == w[i];
      }
      WalkDepth(g, visited, parent, queue, dist, init);
      var y, x := w[|w| - 2], w[|w| - 1];
      assert y == init[|init| - 1];
      assert forall j :: 0 < j < |queue| ==> dist[queue[0]] <= dist[queue[j]];
      assert y !in queue;
      assert Adjacent(y, x) && Open(g, x);
    }
  }

  /** When the end is at the head of the queue, no walk from start to end
      has fewer cells than the end's depth plus one. */
  lemma EndDepthIsLeast(g: Board, visited: set<Pos>, parent: map<Pos, Pos>, queue: seq<Pos>, dist: map<Pos, nat>)
    requires Inv(g, visited, parent, queue, dist) && |queue| > 0 && queue[0] == EndPos
    ensures EndPos in dist && forall w :: WalkFromTo(g, w, StartPos, EndPos) ==> dist[EndPos] < |w|
  {
    forall w | WalkFromTo(g, w, StartPos, EndPos)
      ensures dist[EndPos] < |w|
    {
      if |w| - 1 <= dist[EndPos] {
        WalkDepth(g, visited, parent, queue, dist, w);
      }
    }
  }

  /** The path rebuilt from the parents of the end is a walk from start to
      end with one cell per level of the end's depth. */
  lemma RebuiltPath(g: Board, visited: set<Pos>, parent: map<Pos, Pos>, dist: map<Pos, nat>, path: seq<Pos>)
    requires DistInv(g, visited, dist) && ParentInv(visited, parent, dist)
    requires |path| > 0 && path[|path| - 1] == EndPos && path[0] !in parent
    requires forall i :: 0 < i < |path| ==> path[i] in parent && parent[path[i]] == path[i - 1]
    requires forall i :: 0 <= i < |path| ==> path[i] in dist
    ensures WalkFromTo(g, path, StartPos, EndPos) && |path| == dist[EndPos] + 1
  {
    ChainIsWalk(g, parent, path);
    assert path[0] == StartPos;
    ChainLength(path, dist);
  }

  /** Dequeued `current` (not the end) with `rest` behind it: enqueue each
      undiscovered open neighbour, in neighbour order, with `current` as
      its parent. */
  method Expand(g: Board, current: Pos, rest: seq<Pos>, visited0: set<Pos>, parent0: map<Pos, Pos>, ghost dist0: map<Pos, nat>)
    returns (visited: set<Pos>, parent: map<Pos, Pos>, queue: seq<Pos>, ghost dist: map<Pos, nat>)
    requires WellFormed(g) && current != EndPos
    requires Inv(g, visited0, parent0, [current] + rest, dist0)
    ensures Inv(g, visited, parent, queue, dist)
    ensures visited0 <= visited && (visited == visited0 ==> |queue| < |[current] + rest|)
  {
    var neighbors := GetNeighbors(current);
    visited, parent, queue, dist := visited0, parent0, rest, dist0;
    assert forall i :: 0 <= i < |rest| ==> rest[i] == ([current] + rest)[i + 1] != current;
    var k := 0;
    while k < |neighbors|
      invariant 0 <= k <= |neighbors|
      invariant visited0 <= visited && (queue == rest || visited != visited0)
      invariant current in visited && current in dist && current !in queue && dist[current] == dist0[current]
      invariant Inv(g, visited, parent, [current] + queue, dist)
      invariant forall i :: 0 <= i < k ==> Seen(g, visited, dist, dist0[current], neighbors[i])
    {
      ghost var visitedBefore, distBefore := visited, dist;
      visited, parent, queue, dist := VisitNeighbor(g, current, neighbors[k], visited, parent, queue, dist);
      SeenStep(g, visitedBefore, distBefore, visited, dist, dist0[current], neighbors, k);
      k := k + 1;
    }
    FinishExpand(g, current, visited, parent, queue, dist);
  }

  /** An open neighbour that has been discovered, at most one level below
      `depth`. */
  ghost predicate Seen(g: Board, visited: set<Pos>, dist: map<Pos, nat>, depth: int, n: Pos) {
    Open(g, n) ==> n in visited && n in dist && dist[n] <= depth + 1
  }

  /** Discovery only adds cells and depths, so seen neighbours stay seen;
      with the next neighbour seen too, the seen prefix grows by one. */
  lemma SeenStep(g: Board, visited0: set<Pos>, dist0: map<Pos, nat>, visited: set<Pos>, dist: map<Pos, nat>, depth: int, ns: seq<Pos>, k: nat)
    requires k < |ns| && visited0 <= visited
    requires forall x :: x in dist0 ==> x in dist && dist[x] == dist0[x]
    requires forall i :: 0 <= i < k ==> Seen(g, visited0, dist0, depth, ns[i])
    requires Seen(g, visited, dist, depth, ns[k])
    ensures forall i :: 0 <= i < k + 1 ==> Seen(g, visited, dist, depth, ns[i])
  {
  }

  /** One step of the neighbour loop: `n` is discovered, with `current` as
      its parent and one level deeper, exactly when it is undiscovered and
      not a wall. */
  method VisitNeighbor(g: Board, current: Pos, n: Pos, visited0: set<Pos>, parent0: map<Pos, Pos>, queue0: seq<Pos>, ghost dist0: map<Pos, nat>)
    returns (visited: set<Pos>, parent: map<Pos, Pos>, queue: seq<Pos>, ghost dist: map<Pos, nat>)
    requires WellFormed(g) && InBounds(n) && Adjacent(current, n)
    requires current in visited0 && current in dist0 && current !in queue0
    requires Inv(g, visited0, parent0, [current] + queue0, dist0)
    ensures visited0 <= visited && ((visited == visited0 && queue == queue0) || (n in visited && n !in visited0))
    ensures current in visited && current in dist && current !in queue && dist[current] == dist0[current]
    ensures Inv(g, visited, parent, [current] + queue, dist)
    ensures forall x :: x in dist0 ==> x in dist && dist[x] == dist0[x]
    ensures Seen(g, visited, dist, dist0[current], n)
    ensures n !in visited0 && !g[n.row][n.col].isWall ==>
              visited == visited0 + {n} && parent == parent0[n := current] && queue == queue0 + [n]
              && dist == dist0[n := dist0[current] + 1]
    ensures n in visited0 || g[n.row][n.col].isWall ==>
              visited == visited0 && parent == parent0 && queue == queue0 && dist == dist0
  {
    OpenIsNotWall(g, n);
    visited, parent, queue, dist := visited0, parent0, queue0, dist0;
    if n !in visited0 && !g[n.row][n.col].isWall {
      Discover(g, current, n, visited0, parent0, queue0, dist0);
      visited := visited0 + {n};
      parent := parent0[n := current];
      dist := dist0[n := dist0[current] + 1];
      queue := queue0 + [n];
    }
  }

  /** Discovering `n` from the head `current` keeps every invariant, with
      `current` still counted as queued. */
  lemma Discover(g: Board, current: Pos, n: Pos, visited: set<Pos>, parent: map<Pos, Pos>, queue: seq<Pos>, dist: map<Pos, nat>)
    requires current in visited && current in dist && current !in queue
    requires Inv(g, visited, parent, [current] + queue, dist)
    requires n !in visited && Open(g, n) && Adjacent(current, n)
    ensures n != current && n !in queue
    ensures Inv(g, visited + {n}, parent[n := current], [current] + (queue + [n]), dist[n := dist[current] + 1])
  {
    var q0 := [current] + queue;
    var q1 := [current] + (queue + [n]);
    var d1 := dist[n := dist[current] + 1];
    assert q1 == q0 + [n];
    assert forall i :: 0 <= i < |queue| ==> queue[i] == q0[i + 1] && queue[i] in visited;
    assert DistInv(g, visited + {n}, d1);
    DiscoverParent(current, n, visited, parent, dist);
    DiscoverQueue(current, n, visited, q0, dist);
    DiscoverClosure(g, n, visited, q0, dist, d1);
    assert EndInv(visited + {n}, q1) by {
      assert q1[|q1| - 1] == n;
    }
  }

  /** The new cell's parent is `current`, one level shallower. */
  lemma DiscoverParent(current: Pos, n: Pos, visited: set<Pos>, parent: map<Pos, Pos>, dist: map<Pos, nat>)
    requires ParentInv(visited, parent, dist) && dist.Keys == visited && StartPos in visited
    requires current in visited && n !in visited && Adjacent(current, n)
    ensures ParentInv(visited + {n}, parent[n := current], dist[n := dist[current] + 1])
  {
  }

  /** Appending the new cell keeps the queue ordered: every queued depth is
      at most one more than the head's, the new cell's depth. */
  lemma DiscoverQueue(current: Pos, n: Pos, visited: set<Pos>, q0: seq<Pos>, dist: map<Pos, nat>)
    requires |q0| > 0 && q0[0] == current && current in dist
    requires QueueInv(visited, q0, dist) && FrontierInv(visited, q0, dist) && n !in visited
    ensures QueueInv(visited + {n}, q0 + [n], dist[n := dist[current] + 1])
    ensures FrontierInv(visited + {n}, q0 + [n], dist[n := dist[current] + 1])
  {
    var q1 := q0 + [n];
    var d1 := dist[n := dist[current] + 1];
    assert forall i :: 0 <= i < |q0| ==> q1[i] == q0[i] && q0[i] in visited;
    assert forall i :: 0 <= i < |q0| ==> d1[q1[i]] == dist[q0[i]] <= dist[current] + 1;
  }

  /** A closed cell stays closed: the new cell joins the queue, and old
      depths do not change. */
  lemma DiscoverClosure(g: Board, n: Pos, visited: set<Pos>, q0: seq<Pos>, dist: map<Pos, nat>, d1: map<Pos, nat>)
    requires ClosureInv(g, visited, q0, dist) && n !in visited
    requires d1.Keys == dist.Keys + {n} && forall p :: p in dist ==> d1[p] == dist[p]
    ensures ClosureInv(g, visited + {n}, q0 + [n], d1)
  {
    forall c, m | c in visited + {n} && c !in q0 + [n] && Adjacent(c, m) && Open(g, m)
      ensures m in visited + {n} && m in d1 && c in d1 && d1[m] <= d1[c] + 1
    {
      assert c != n && c !in q0;
    }
  }

  /** Once every neighbour of `current` is handled, dropping it from the
      front of the queue keeps every invariant. */
  lemma FinishExpand(g: Board, current: Pos, visited: set<Pos>, parent: map<Pos, Pos>, queue: seq<Pos>, dist: map<Pos, nat>)
    requires current != EndPos && current in visited && current in dist && current !in queue
    requires Inv(g, visited, parent, [current] + queue, dist)
    requires forall i :: 0 <= i < |GetNeighbors(current)| ==> Seen(g, visited, dist, dist[current], GetNeighbors(current)[i])
    ensures Inv(g, visited, parent, queue, dist)
  {
    var q0 := [current] + queue;
    assert forall i :: 0 <= i < |queue| ==> queue[i] == q0[i + 1];
    assert QueueInv(visited, queue, dist) by {
      if |queue| > 0 {
        assert dist[current] <= dist[queue[0]];
      }
    }
    assert ClosureInv(g, visited, queue, dist) by {
      forall c, m | c in visited && c !in queue && Adjacent(c, m) && Open(g, m)
        ensures m in visited && m in dist && c in dist && dist[m] <= dist[c] + 1
      {
        if c == current {
          var ns := GetNeighbors(current);
          var j :| 0 <= j < |ns| && ns[j] == m;
          assert Seen(g, visited, dist, dist[current], ns[j]);
        } else {
          assert c !in q0;
        }
      }
    }
    assert FrontierInv(visited, queue, dist) by {
      if |queue| > 0 {
        assert dist[current] <= dist[queue[0]];
      }
    }
  }
}
