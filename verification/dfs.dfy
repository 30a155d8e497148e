/**
 Depth-first search with an explicit stack. A cell is marked visited when
 it is popped (a cell popped a second time is skipped), and its unvisited
 open neighbours are pushed in reverse direction order, each recording the
 popped cell as its parent; a later push overwrites an earlier parent. The
 end is recognised when it is popped. A ghost rank numbers the cells in
 the order they are visited: a visited cell's parent was visited before it,
 which is what makes the walk back along the parents end at the start.
 */
module Dfs {
  import opened Grid

  /** The cells in the opposite order. */
  function Reversed(s: seq<Pos>): seq<Pos>
    decreases |s|
  {
    if |s| == 0 then [] else Reversed(s[1..]) + [s[0]]
  }

  /** Position `i` of the reversed sequence holds position `|s| - 1 - i`
      of the original. */
  lemma {:induction false} ReversedAt(s: seq<Pos>, i: int)
    requires 0 <= i < |s|
    ensures |Reversed(s)| == |s| && Reversed(s)[i] == s[|s| - 1 - i]
    decreases |s|
  {
    ReversedLength(s[1..]);
    if i < |s| - 1 {
      ReversedAt(s[1..], i);
    }
  }

  lemma {:induction false} ReversedLength(s: seq<Pos>)
    ensures |Reversed(s)| == |s|
    decreases |s|
  {
    if |s| > 0 {
      ReversedLength(s[1..]);
    }
  }

  /** Stacked cells are open and are the start or have a parent; before the
      first visit only the start is stacked. */
  ghost predicate StackInv(g: Board, visited: set<Pos>, stack: seq<Pos>, parent: map<Pos, Pos>) {
    forall i :: 0 <= i < |stack| ==>
      Open(g, stack[i]) && (stack[i] == StartPos || stack[i] in parent)
      && (visited == {} ==> stack[i] == StartPos)
  }

  /** The start is visited or stacked, and every open neighbour of a cell
      in `closed` is visited or stacked. */
  ghost predicate ReachInv(g: Board, closed: set<Pos>, visited: set<Pos>, stack: seq<Pos>) {
    (StartPos in visited || StartPos in stack)
    && forall c, n :: c in closed && Adjacent(c, n) && Open(g, n) ==> n in visited || n in stack
  }

  ghost predicate Inv(g: Board, visited: set<Pos>, parent: map<Pos, Pos>, stack: seq<Pos>, rank: map<Pos, nat>, counter: nat) {
    Ranked(g, visited, rank, counter) && Linked(visited, parent, rank)
    && StackInv(g, visited, stack, parent) && ReachInv(g, visited, visited, stack)
  }

  /** Search from the start, deepest first; on popping the end, walk the
      parent links back. The path returned is a walk from start to end; no
      path means no walk exists. */
  method DepthFirstSearch(g: Board) returns (path: Option<seq<Pos>>)
    requires WellFormed(g)
    ensures path.Some? ==> WalkFromTo(g, path.value, StartPos, EndPos)
    ensures path.None? ==> forall w :: !WalkFromTo(g, w, StartPos, EndPos)
  {
    var stack := [StartPos];
    var visited: set<Pos> := {};
    var parent: map<Pos, Pos> := map[];
    ghost var rank: map<Pos, nat> := map[];
    ghost var counter: nat := 0;
    while |stack| > 0
      invariant Inv(g, visited, parent, stack, rank, counter)
      decreases AllCells - visited, |stack|
    {
      var current := stack[|stack| - 1];
      SplitLast(stack);
      stack := stack[..|stack| - 1];
      if current in visited {
        PopVisited(g, visited, parent, stack, rank, counter, current);
        continue;
      }
      PopNew(g, visited, parent, stack, rank, counter, current);
      MarkDone(g, visited, parent, rank, counter, current);
      ghost var before := visited;
      visited := visited + {current};
      rank := rank[current := counter];
      counter := counter + 1;
      if current == EndPos {
        var p := ReconstructPath(parent, current, rank);
        ChainFromStart(g, parent, rank, p, current);
        return Some(p);
      }
      stack, parent := PushNeighbors(g, current, visited, stack, parent, rank, counter);
      FewerOutside(before, visited);
    }
    NoWalkOutOf(g, visited);
    return None;
  }

  /** An open neighbour that has been dealt with: visited or stacked. */
  ghost predicate Handled(g: Board, visited: set<Pos>, stack: seq<Pos>, n: Pos) {
    Open(g, n) ==> n in visited || n in stack
  }

  /** A non-empty stack is its prefix with the top cell pushed on it. */
  lemma SplitLast(s: seq<Pos>)
    requires |s| > 0
    ensures s == s[..|s| - 1] + [s[|s| - 1]]
  {
  }

  /** Pushing loses nothing: the reach invariant and the handled prefix of
      the neighbours carry over, and with the next neighbour handled the
      prefix grows by one. */
  lemma HandledStep(g: Board, current: Pos, visited: set<Pos>, stack0: seq<Pos>, stack: seq<Pos>, ns: seq<Pos>, k: nat)
    requires k < |ns| && forall x :: x in stack0 ==> x in stack
    requires ReachInv(g, visited - {current}, visited, stack0)
    requires forall i :: 0 <= i < k ==> Handled(g, visited, stack0, ns[i])
    requires Handled(g, visited, stack, ns[k])
    ensures ReachInv(g, visited - {current}, visited, stack)
    ensures forall i :: 0 <= i < k + 1 ==> Handled(g, visited, stack, ns[i])
  {
  }

  /** Popping a cell already visited: the shorter stack keeps the
      invariant, since the cell counts through `visited`. */
  lemma PopVisited(g: Board, visited: set<Pos>, parent: map<Pos, Pos>, stack: seq<Pos>, rank: map<Pos, nat>, counter: nat, current: Pos)
    requires Inv(g, visited, parent, stack + [current], rank, counter) && current in visited
    ensures Inv(g, visited, parent, stack, rank, counter)
  {
    var s := stack + [current];
    assert forall i :: 0 <= i < |stack| ==> s[i] == stack[i];
  }

  /** Popping a cell not yet visited: the stack invariants hold for the
      shorter stack once the cell counts as visited, its own neighbours
      still to be pushed. */
  lemma PopNew(g: Board, visited: set<Pos>, parent: map<Pos, Pos>, stack: seq<Pos>, rank: map<Pos, nat>, counter: nat, current: Pos)
    requires Inv(g, visited, parent, stack + [current], rank, counter) && current !in visited
    ensures Open(g, current) && (current == StartPos || current in parent)
    ensures visited == {} ==> current == StartPos
    ensures StackInv(g, visited + {current}, stack, parent)
    ensures ReachInv(g, visited, visited + {current}, stack)
  {
    var s := stack + [current];
    assert s[|stack|] == current;
    assert forall i :: 0 <= i < |stack| ==> s[i] == stack[i];
  }

  /** Push the unvisited open neighbours of the just-visited `current`, in
      reverse direction order, making `current` their parent. */
  method PushNeighbors(g: Board, current: Pos, visited: set<Pos>, stack0: seq<Pos>, parent0: map<Pos, Pos>, ghost rank: map<Pos, nat>, ghost counter: nat)
    returns (stack: seq<Pos>, parent: map<Pos, Pos>)
    requires WellFormed(g) && current in visited
    requires Ranked(g, visited, rank, counter) && Linked(visited, parent0, rank)
    requires StackInv(g, visited, stack0, parent0) && ReachInv(g, visited - {current}, visited, stack0)
    ensures Inv(g, visited, parent, stack, rank, counter)
  {
    var neighbors := Reversed(GetNeighbors(current));
    ReversedLength(GetNeighbors(current));
    stack, parent := stack0, parent0;
    var k := 0;
    while k < |neighbors|
      invariant 0 <= k <= |neighbors|
      invariant Linked(visited, parent, rank) && StackInv(g, visited, stack, parent)
      invariant ReachInv(g, visited - {current}, visited, stack)
      invariant forall i :: 0 <= i < k ==> Handled(g, visited, stack, neighbors[i])
    {
      var n := neighbors[k];
      ReversedAt(GetNeighbors(current), k);
      ghost var before := stack;
      stack, parent := PushIfNew(g, current, n, visited, stack, parent, rank, counter);
      HandledStep(g, current, visited, before, stack, neighbors, k);
      k := k + 1;
    }
    AllHandled(g, current, neighbors, visited, stack);
  }

  /** Once every neighbour of `current` is handled, `current` joins the
      cells whose neighbours are all visited or stacked. */
  lemma AllHandled(g: Board, current: Pos, neighbors: seq<Pos>, visited: set<Pos>, stack: seq<Pos>)
    requires neighbors == Reversed(GetNeighbors(current))
    requires ReachInv(g, visited - {current}, visited, stack)
    requires forall i :: 0 <= i < |neighbors| ==> Handled(g, visited, stack, neighbors[i])
    ensures ReachInv(g, visited, visited, stack)
  {
    var ns := GetNeighbors(current);
    ReversedLength(ns);
    forall c, n | c in visited && Adjacent(c, n) && Open(g, n)
      ensures n in visited || n in stack
    {
      if c == current {
        var j :| 0 <= j < |ns| && ns[j] == n;
        var i := |ns| - 1 - j;
        ReversedAt(ns, i);
        assert neighbors[i] == n;
        assert Handled(g, visited, stack, neighbors[i]);
      }
    }
  }

  /** One step of the neighbour loop: `n` is pushed, with `current` as its
      parent, exactly when it is unvisited and not a wall. */
  method PushIfNew(g: Board, current: Pos, n: Pos, visited: set<Pos>, stack0: seq<Pos>, parent0: map<Pos, Pos>, ghost rank: map<Pos, nat>, ghost counter: nat)
    returns (stack: seq<Pos>, parent: map<Pos, Pos>)
    requires WellFormed(g) && current in visited && InBounds(n) && Adjacent(current, n)
    requires Ranked(g, visited, rank, counter) && Linked(visited, parent0, rank) && StackInv(g, visited, stack0, parent0)
    ensures Linked(visited, parent, rank) && StackInv(g, visited, stack, parent)
    ensures forall x :: x in stack0 ==> x in stack
    ensures Handled(g, visited, stack, n)
    ensures n !in visited && !g[n.row][n.col].isWall ==> stack == stack0 + [n] && parent == parent0[n := current]
    ensures n in visited || g[n.row][n.col].isWall ==> stack == stack0 && parent == parent0
  {
    OpenIsNotWall(g, n);
    if n !in visited && !g[n.row][n.col].isWall {
      LinkFresh(current, n, visited, parent0, rank);
      PushKeepsStackInv(g, current, n, visited, parent0, stack0);
      parent := parent0[n := current];
      stack := stack0 + [n];
    } else {
      stack, parent := stack0, parent0;
    }
  }

  /** Pushing one more open cell keeps the stack invariant and keeps
      whatever was stacked. */
  lemma PushKeepsStackInv(g: Board, current: Pos, n: Pos, visited: set<Pos>, parent: map<Pos, Pos>, stack: seq<Pos>)
    requires visited != {} && Open(g, n) && StackInv(g, visited, stack, parent)
    ensures StackInv(g, visited, stack + [n], parent[n := current])
    ensures forall x :: x in stack ==> x in stack + [n]
    ensures n in stack + [n]
  {
    var s := stack + [n];
    assert forall i :: 0 <= i < |stack| ==> s[i] == stack[i];
    assert s[|stack|] == n;
  }
}
