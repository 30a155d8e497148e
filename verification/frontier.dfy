/**
 The priority queue of Dijkstra's algorithm and A*: a plain array of
 entries, each a cell with a numeric key (distance, or f-score), re-sorted
 in ascending key order before the front entry is taken. The array sort of
 the language is stable, so entries with equal keys keep their order; the
 model sorts by stable insertion.
 */
module Frontier {
  import opened Grid

  datatype Entry = Entry(pos: Pos, key: int)

  predicate SortedByKey(q: seq<Entry>) {
    forall i, j :: 0 <= i < j < |q| ==> q[i].key <= q[j].key
  }

  /** Some entry of `q` is for cell `p`. */
  predicate HasPosition(q: seq<Entry>, p: Pos) {
    exists e :: e in q && e.pos == p
  }

  /** No cell has two entries. */
  predicate DistinctPositions(q: seq<Entry>) {
    forall i, j :: 0 <= i < j < |q| ==> q[i].pos != q[j].pos
  }

  /** Place `x` ahead of the first entry with a larger key. */
  function InsertByKey(x: Entry, s: seq<Entry>): (r: seq<Entry>)
    requires SortedByKey(s)
    ensures SortedByKey(r) && multiset(r) == multiset(s) + multiset{x}
    decreases |s|
  {
    if |s| == 0 || x.key <= s[0].key then
      ConsByKey(x, s);
      [x] + s
    else
      var rest := InsertByKey(x, s[1..]);
      KeepFront(x, s, rest);
      [s[0]] + rest
  }

  /** An entry keyed no higher than the front of a sorted queue can go in
      front. */
  lemma ConsByKey(x: Entry, s: seq<Entry>)
    requires SortedByKey(s) && (|s| == 0 || x.key <= s[0].key)
    ensures SortedByKey([x] + s) && multiset([x] + s) == multiset(s) + multiset{x}
  {
    var r := [x] + s;
    forall p, q | 0 <= p < q < |r|
      ensures r[p].key <= r[q].key
    {
      if p > 0 {
        assert r[p] == s[p - 1] && r[q] == s[q - 1];
      } else {
        assert s[0].key <= s[q - 1].key;
      }
    }
  }

  /** Inserting `x`, keyed above the front, into the rest leaves the front
      entry in front. */
  lemma KeepFront(x: Entry, s: seq<Entry>, rest: seq<Entry>)
    requires SortedByKey(s) && |s| > 0 && x.key > s[0].key
    requires SortedByKey(rest) && multiset(rest) == multiset(s[1..]) + multiset{x}
    ensures SortedByKey([s[0]] + rest) && multiset([s[0]] + rest) == multiset(s) + multiset{x}
  {
    assert s == [s[0]] + s[1..];
    forall k | 0 <= k < |rest|
      ensures s[0].key <= rest[k].key
    {
      assert rest[k] in multiset(rest);
      if rest[k] != x {
        assert rest[k] in multiset(s[1..]);
        var m :| 0 <= m < |s[1..]| && s[1..][m] == rest[k];
        assert s[m + 1] == rest[k];
      }
    }
    var r := [s[0]] + rest;
    forall p, q | 0 <= p < q < |r|
      ensures r[p].key <= r[q].key
    {
      if p > 0 {
        assert r[p] == rest[p - 1] && r[q] == rest[q - 1];
      } else {
        assert r[q] == rest[q - 1];
      }
    }
  }

  /** The queue in ascending key order, equal keys in their original order. */
  function SortByKey(q: seq<Entry>): (r: seq<Entry>)
    ensures multiset(r) == multiset(q)
    ensures SortedByKey(r)
    decreases |q|
  {
    if |q| == 0 then []
    else
      assert q == [q[0]] + q[1..];
      InsertByKey(q[0], SortByKey(q[1..]))
  }

  /** The entries of `q` with key `k`, in order. */
  function WithKey(q: seq<Entry>, k: int): seq<Entry>
    decreases |q|
  {
    if |q| == 0 then []
    else if q[0].key == k then [q[0]] + WithKey(q[1..], k)
    else WithKey(q[1..], k)
  }

  lemma {:induction false} InsertStable(x: Entry, s: seq<Entry>, k: int)
    requires SortedByKey(s)
    ensures WithKey(InsertByKey(x, s), k) == if x.key == k then [x] + WithKey(s, k) else WithKey(s, k)
    decreases |s|
  {
    if |s| == 0 || x.key <= s[0].key {
      assert ([x] + s)[1..] == s;
    } else {
      InsertStable(x, s[1..], k);
      assert ([s[0]] + InsertByKey(x, s[1..]))[1..] == InsertByKey(x, s[1..]);
    }
  }

  /** The sort is stable: for every key, the entries carrying it appear in
      the same order before and after. */
  lemma {:induction false} SortIsStable(q: seq<Entry>, k: int)
    ensures WithKey(SortByKey(q), k) == WithKey(q, k)
    decreases |q|
  {
    if |q| > 0 {
      SortIsStable(q[1..], k);
      InsertStable(q[0], SortByKey(q[1..]), k);
    }
  }

  /** Reordering the entries does not change which cells have one. */
  lemma SameCells(q: seq<Entry>, r: seq<Entry>, p: Pos)
    requires multiset(q) == multiset(r)
    ensures HasPosition(q, p) <==> HasPosition(r, p)
  {
    if HasPosition(q, p) {
      var e :| e in q && e.pos == p;
      assert e in multiset(r);
    }
    if HasPosition(r, p) {
      var e :| e in r && e.pos == p;
      assert e in multiset(q);
    }
  }

  lemma {:induction false} InsertKeepsDistinct(x: Entry, s: seq<Entry>)
    requires SortedByKey(s) && DistinctPositions(s) && !HasPosition(s, x.pos)
    ensures DistinctPositions(InsertByKey(x, s))
    decreases |s|
  {
    if |s| > 0 && x.key > s[0].key {
      var rest := InsertByKey(x, s[1..]);
      assert !HasPosition(s[1..], x.pos) by {
        forall e | e in s[1..]
          ensures e.pos != x.pos
        {
          assert e in s;
        }
      }
      InsertKeepsDistinct(x, s[1..]);
      assert forall j :: 0 <= j < |rest| ==> rest[j].pos != s[0].pos by {
        forall j | 0 <= j < |rest|
          ensures rest[j].pos != s[0].pos
        {
          var e := rest[j];
          assert e in multiset(s[1..]) + multiset{x};
          if e != x {
            assert e in s[1..];
            var i :| 0 <= i < |s[1..]| && s[1..][i] == e;
            assert s[i + 1] == e;
          } else {
            assert s[0] in s;
          }
        }
      }
      var r := [s[0]] + rest;
      forall i, j | 0 <= i < j < |r|
        ensures r[i].pos != r[j].pos
      {
        if i > 0 {
          assert r[i] == rest[i - 1] && r[j] == rest[j - 1];
        } else {
          assert r[j] == rest[j - 1];
        }
      }
    } else if |s| > 0 {
      var r := [x] + s;
      forall i, j | 0 <= i < j < |r|
        ensures r[i].pos != r[j].pos
      {
        if i == 0 {
          assert r[j] == s[j - 1] && r[j] in s;
        } else {
          assert r[i] == s[i - 1] && r[j] == s[j - 1];
        }
      }
    }
  }

  /** Sorting keeps at most one entry per cell. */
  lemma {:induction false} SortKeepsDistinct(q: seq<Entry>)
    requires DistinctPositions(q)
    ensures DistinctPositions(SortByKey(q))
    decreases |q|
  {
    if |q| > 0 {
      var rest := SortByKey(q[1..]);
      assert DistinctPositions(q[1..]) by {
        forall i, j | 0 <= i < j < |q[1..]|
          ensures q[1..][i].pos != q[1..][j].pos
        {
          assert q[1..][i] == q[i + 1] && q[1..][j] == q[j + 1];
        }
      }
      SortKeepsDistinct(q[1..]);
      assert !HasPosition(rest, q[0].pos) by {
        forall e | e in rest
          ensures e.pos != q[0].pos
        {
          assert e in multiset(q[1..]);
          var i :| 0 <= i < |q[1..]| && q[1..][i] == e;
          assert q[i + 1] == e;
        }
      }
      InsertKeepsDistinct(q[0], rest);
    }
  }

  /** The start has a score, and every scored cell not yet finished still
      has an entry waiting in the queue. */
  ghost predicate Pending(done: set<Pos>, queue: seq<Entry>, scores: map<Pos, nat>) {
    StartPos in scores
    && forall p :: p in scores && p !in done ==> HasPosition(queue, p)
  }

  /** Every open neighbour of a cell in `closed` is finished or scored. */
  ghost predicate Reached(g: Board, closed: set<Pos>, done: set<Pos>, scores: map<Pos, nat>) {
    forall c, n :: c in closed && Adjacent(c, n) && Open(g, n) ==> n in done || n in scores
  }

  /** A cell dealt with as a neighbour: finished or scored. */
  ghost predicate Settled(g: Board, done: set<Pos>, scores: map<Pos, nat>, n: Pos) {
    Open(g, n) ==> n in done || n in scores
  }

  /** Scores only gain keys, so settled neighbours stay settled; with the
      next neighbour settled too, the settled prefix grows by one. */
  lemma SettledStep(g: Board, done: set<Pos>, scores0: map<Pos, nat>, scores: map<Pos, nat>, ns: seq<Pos>, k: nat)
    requires k < |ns| && scores0.Keys <= scores.Keys
    requires forall i :: 0 <= i < k ==> Settled(g, done, scores0, ns[i])
    requires Settled(g, done, scores, ns[k])
    ensures forall i :: 0 <= i < k + 1 ==> Settled(g, done, scores, ns[i])
  {
  }

  /** Once every neighbour of `current` is settled, `current` joins the
      cells whose open neighbours are all finished or scored. */
  lemma AllSettled(g: Board, current: Pos, done: set<Pos>, scores0: map<Pos, nat>, scores: map<Pos, nat>)
    requires Reached(g, done - {current}, done, scores0) && scores0.Keys <= scores.Keys
    requires forall i :: 0 <= i < |GetNeighbors(current)| ==> Settled(g, done, scores, GetNeighbors(current)[i])
    ensures Reached(g, done, done, scores)
  {
    var ns := GetNeighbors(current);
    forall c, n | c in done && Adjacent(c, n) && Open(g, n)
      ensures n in done || n in scores
    {
      if c == current {
        var j :| 0 <= j < |ns| && ns[j] == n;
        assert Settled(g, done, scores, ns[j]);
      }
    }
  }

  /** With nothing queued every scored cell is finished, so the finished
      region is closed, holds the start and lacks the end. */
  lemma NothingPending(g: Board, done: set<Pos>, scores: map<Pos, nat>)
    requires Pending(done, [], scores) && Reached(g, done, done, scores) && EndPos !in done
    ensures forall w :: !WalkFromTo(g, w, StartPos, EndPos)
  {
    assert forall p :: p in scores ==> p in done;
    assert ClosedUnder(g, done);
    NoWalkOutOf(g, done);
  }

  /** Appending an entry for a cell without one keeps one entry per cell. */
  lemma AppendDistinct(q: seq<Entry>, e: Entry)
    requires DistinctPositions(q) && !HasPosition(q, e.pos)
    ensures DistinctPositions(q + [e])
  {
    var r := q + [e];
    forall i, j | 0 <= i < j < |r|
      ensures r[i].pos != r[j].pos
    {
      assert r[i] == q[i] && r[i] in q;
      if j < |q| {
        assert r[j] == q[j];
      }
    }
  }

  /** Appending an entry keeps every cell that had one and adds its own. */
  lemma AppendPositions(q: seq<Entry>, e: Entry)
    ensures forall p :: HasPosition(q, p) ==> HasPosition(q + [e], p)
    ensures HasPosition(q + [e], e.pos)
  {
    assert e in q + [e];
    forall p | HasPosition(q, p)
      ensures HasPosition(q + [e], p)
    {
      var x :| x in q && x.pos == p;
      assert x in q + [e];
    }
  }

  /** Taking the front entry off leaves an entry for every other cell that
      had one. */
  lemma ShiftPositions(q: seq<Entry>, p: Pos)
    requires |q| > 0 && HasPosition(q, p) && p != q[0].pos
    ensures HasPosition(q[1..], p)
  {
    var x :| x in q && x.pos == p;
    var i :| 0 <= i < |q| && q[i] == x;
    assert q[1..][i - 1] == x;
  }

  /** The front entry after sorting has the least key in the queue. */
  lemma FrontIsLeast(q: seq<Entry>)
    requires |q| > 0
    ensures |SortByKey(q)| > 0
    ensures forall e :: e in q ==> SortByKey(q)[0].key <= e.key
  {
    var r := SortByKey(q);
    assert |r| == |multiset(q)| == |q|;
    forall e | e in q
      ensures r[0].key <= e.key
    {
      assert e in multiset(r);
      var i :| 0 <= i < |r| && r[i] == e;
    }
  }
}
