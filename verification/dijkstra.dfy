/**
 Dijkstra's algorithm on the unit-weight grid. Every cell starts at
 distance infinity except the start at 0; here a cell without an entry in
 `distances` is at infinity. Each round sorts the queue by distance and
 takes its front entry; an entry for a visited cell is skipped (stale
 entries are never removed otherwise). A newly visited cell that is the
 end stops the search; otherwise each unvisited open neighbour whose
 distance improves gets the new distance, the cell as parent, and a fresh
 queue entry.
 */
module Dijkstra {
  import opened Grid
  import opened Frontier

  /** Queued entries are for open cells that are the start or have a
      parent and have a recorded distance; before the first visit only the
      start is queued. */
  ghost predicate QueueInv(g: Board, visited: set<Pos>, queue: seq<Entry>, parent: map<Pos, Pos>, distances: map<Pos, nat>) {
    forall i :: 0 <= i < |queue| ==>
      Open(g, queue[i].pos) && (queue[i].pos == StartPos || queue[i].pos in parent)
      && queue[i].pos in distances && (visited == {} ==> queue[i].pos == StartPos)
  }

  ghost predicate Inv(g: Board, visited: set<Pos>, parent: map<Pos, Pos>, queue: seq<Entry>, distances: map<Pos, nat>, rank: map<Pos, nat>, counter: nat) {
    Ranked(g, visited, rank, counter) && Linked(visited, parent, rank)
    && QueueInv(g, visited, queue, parent, distances) && Pending(visited, queue, distances)
    && Reached(g, visited, visited, distances)
  }

  /** Search from the start in order of distance; on visiting the end,
      walk the parent links back. The path returned is a walk from start
      to end; no path means no walk exists. */
  method DijkstraSearch(g: Board) returns (path: Option<seq<Pos>>)
    requires WellFormed(g)
    ensures path.Some? ==> WalkFromTo(g, path.value, StartPos, EndPos)
    ensures path.None? ==> forall w :: !WalkFromTo(g, w, StartPos, EndPos)
  {
    var distances: map<Pos, nat> := map[StartPos := 0];
    var visited: set<Pos> := {};
    var parent: map<Pos, Pos> := map[];
    var queue := [Entry(StartPos, 0)];
    ghost var rank: map<Pos, nat> := map[];
    ghost var counter: nat := 0;
    assert Entry(StartPos, 0) in queue;
    while |queue| > 0
      invariant Inv(g, visited, parent, queue, distances, rank, counter)
      decreases AllCells - visited, |queue|
    {
      var sorted := SortByKey(queue);
      SortedInv(g, visited, parent, queue, sorted, distances, rank, counter);
      var current := sorted[0];
      queue := sorted[1..];
      if current.pos in visited {
        SkipVisited(visited, current.pos, queue, distances);
        continue;
      }
      MarkDone(g, visited, parent, rank, counter, current.pos);
      ghost var before := visited;
      visited := visited + {current.pos};
      rank := rank[current.pos := counter];
      counter := counter + 1;
      if current.pos == EndPos {
        var p := ReconstructPath(parent, current.pos, rank);
        ChainFromStart(g, parent, rank, p, current.pos);
        return Some(p);
      }
      queue, distances, parent := Relax(g, current.pos, visited, queue, distances, parent, rank, counter);
      FewerOutside(before, visited);
    }
    NothingPending(g, visited, distances);
    return None;
  }

  /** Sorting the queue, then taking its front entry: the rest of the
      queue keeps the invariants once the front cell counts as visited. */
  lemma SortedInv(g: Board, visited: set<Pos>, parent: map<Pos, Pos>, queue: seq<Entry>, sorted: seq<Entry>, distances: map<Pos, nat>, rank: map<Pos, nat>, counter: nat)
    requires Inv(g, visited, parent, queue, distances, rank, counter) && |queue| > 0
    requires multiset(sorted) == multiset(queue)
    ensures |sorted| == |queue| && sorted[0] in queue
    ensures QueueInv(g, visited, sorted[1..], parent, distances)
    ensures Open(g, sorted[0].pos) && (sorted[0].pos == StartPos || sorted[0].pos in parent)
    ensures sorted[0].pos in distances && (visited == {} ==> sorted[0].pos == StartPos)
    ensures Pending(visited + {sorted[0].pos}, sorted[1..], distances)
  {
    assert |sorted| == |multiset(sorted)| == |queue|;
    assert sorted[0] in multiset(queue);
    forall i | 0 <= i < |sorted|
      ensures sorted[i] in queue
    {
      assert sorted[i] in multiset(queue);
    }
    forall p | p in distances && p !in visited + {sorted[0].pos}
      ensures HasPosition(sorted[1..], p)
    {
      SameCells(queue, sorted, p);
      ShiftPositions(sorted, p);
    }
  }

  /** A stale entry for a cell already visited is dropped at no cost: the
      cells owed an entry are the same. */
  lemma SkipVisited(visited: set<Pos>, pos: Pos, queue: seq<Entry>, distances: map<Pos, nat>)
    requires pos in visited && Pending(visited + {pos}, queue, distances)
    ensures Pending(visited, queue, distances)
  {
  }

  /** Relax the neighbours of the just-visited `current` in direction
      order. */
  method Relax(g: Board, current: Pos, visited: set<Pos>, queue0: seq<Entry>, distances0: map<Pos, nat>, parent0: map<Pos, Pos>, ghost rank: map<Pos, nat>, ghost counter: nat)
    returns (queue: seq<Entry>, distances: map<Pos, nat>, parent: map<Pos, Pos>)
    requires WellFormed(g) && current in visited && current in distances0
    requires Ranked(g, visited, rank, counter) && Linked(visited, parent0, rank)
    requires QueueInv(g, visited, queue0, parent0, distances0) && Pending(visited, queue0, distances0)
    requires Reached(g, visited - {current}, visited, distances0)
    ensures Inv(g, visited, parent, queue, distances, rank, counter)
  {
    var neighbors := GetNeighbors(current);
    queue, distances, parent := queue0, distances0, parent0;
    var k := 0;
    while k < |neighbors|
      invariant 0 <= k <= |neighbors|
      invariant current in distances && distances0.Keys <= distances.Keys
      invariant Linked(visited, parent, rank)
      invariant QueueInv(g, visited, queue, parent, distances) && Pending(visited, queue, distances)
      invariant forall i :: 0 <= i < k ==> Settled(g, visited, distances, neighbors[i])
    {
      ghost var before := distances;
      queue, distances, parent := RelaxOne(g, current, neighbors[k], visited, queue, distances, parent, rank, counter);
      SettledStep(g, visited, before, distances, neighbors, k);
      k := k + 1;
    }
    AllSettled(g, current, visited, distances0, distances);
  }

  /** One step of the neighbour loop: an unvisited open neighbour `n`
      whose distance through `current` beats its recorded one takes that
      distance, `current` as parent, and a new entry. */
  method RelaxOne(g: Board, current: Pos, n: Pos, visited: set<Pos>, queue0: seq<Entry>, distances0: map<Pos, nat>, parent0: map<Pos, Pos>, ghost rank: map<Pos, nat>, ghost counter: nat)
    returns (queue: seq<Entry>, distances: map<Pos, nat>, parent: map<Pos, Pos>)
    requires WellFormed(g) && current in visited && current in distances0 && InBounds(n) && Adjacent(current, n)
    requires Ranked(g, visited, rank, counter) && Linked(visited, parent0, rank)
    requires QueueInv(g, visited, queue0, parent0, distances0) && Pending(visited, queue0, distances0)
    ensures Linked(visited, parent, rank)
    ensures QueueInv(g, visited, queue, parent, distances) && Pending(visited, queue, distances)
    ensures distances0.Keys <= distances.Keys
    ensures forall x :: Settled(g, visited, distances0, x) ==> Settled(g, visited, distances, x)
    ensures Settled(g, visited, distances, n)
    ensures n in distances && n !in visited && !g[n.row][n.col].isWall ==> distances[n] <= distances0[current] + 1
    ensures n !in visited && !g[n.row][n.col].isWall && (n !in distances0 || distances0[current] + 1 < distances0[n]) ==>
              distances == distances0[n := distances0[current] + 1] && parent == parent0[n := current]
              && queue == queue0 + [Entry(n, distances0[current] + 1)]
    ensures n in visited || g[n.row][n.col].isWall || (n in distances0 && distances0[n] <= distances0[current] + 1) ==>
              distances == distances0 && parent == parent0 && queue == queue0
  {
    OpenIsNotWall(g, n);
    queue, distances, parent := queue0, distances0, parent0;
    if n !in visited && !g[n.row][n.col].isWall {
      var newDistance := distances0[current] + 1;
      if n !in distances0 || newDistance < distances0[n] {
        LinkFresh(current, n, visited, parent0, rank);
        var e := Entry(n, newDistance);
        AppendPositions(queue0, e);
        distances := distances0[n := newDistance];
        parent := parent0[n := current];
        queue := queue0 + [e];
        assert forall i :: 0 <= i < |queue0| ==> queue[i] == queue0[i];
      }
    }
  }
}
