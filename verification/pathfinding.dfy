/**
 The find-path button: run the search named by the selector. A name the
 switch does not list runs nothing.
 */
module Pathfinding {
  import opened Grid
  import Bfs
  import Dfs
  import Dijkstra
  import AStar

  predicate IsSearchName(algorithm: string) {
    algorithm == "bfs" || algorithm == "dfs" || algorithm == "dijkstra" || algorithm == "astar"
  }

  /** `ran` says whether a search was run; when one was, a path is a walk
      from start to end (a shortest one for breadth-first search) and no
      path means the end cannot be reached. */
  method StartPathfinding(algorithm: string, g: Board) returns (ran: bool, path: Option<seq<Pos>>)
    requires WellFormed(g)
    ensures ran <==> IsSearchName(algorithm)
    ensures !ran ==> path.None?
    ensures path.Some? ==> WalkFromTo(g, path.value, StartPos, EndPos)
    ensures ran && path.None? ==> forall w :: !WalkFromTo(g, w, StartPos, EndPos)
    ensures algorithm == "bfs" && path.Some? ==>
              forall w :: WalkFromTo(g, w, StartPos, EndPos) ==> |path.value| <= |w|
  {
    ran, path := true, None;
    if algorithm == "bfs" {
      path := Bfs.BreadthFirstSearch(g);
    } else if algorithm == "dfs" {
      path := Dfs.DepthFirstSearch(g);
    } else if algorithm == "dijkstra" {
      path := Dijkstra.DijkstraSearch(g);
    } else if algorithm == "astar" {
      path := AStar.AStarSearch(g);
    } else {
      ran := false;
    }
  }
}
