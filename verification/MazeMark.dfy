// mark_maze_area: the breadth-first marker with its fixed-size queue.
module MazeMark {
  import opened MazeGrid
  import opened MazePaths

  const QUEUE_SIZE := MAZE_MAX_X_DIM * MAZE_MAX_Y_DIM

  /** The marker's state: S holds the marked points, all of them joined to p and
      waiting in the queue or fully explored. */
  ghost predicate Searching(m: seq<Cell>, w: int, U: set<int>, p: int, S: set<int>, todo: set<int>) {
    && todo <= S <= Component(m, w, U, p)
    && p in S
    && (forall a, b | a in S - todo && b in U && Edge(m, w, a, b) :: b in S)
  }

  /** An empty queue means the whole component is marked. */
  lemma SearchComplete(m: seq<Cell>, w: int, U: set<int>, p: int, S: set<int>)
    requires Searching(m, w, U, p, S, {})
    ensures S == Component(m, w, U, p)
  {
    forall q | q in Component(m, w, U, p) ensures q in S {
      ClosedHoldsConnected(m, w, U, S, p, q);
    }
  }

  /** The elements of the queue between its two ends. */
  ghost function Waiting(q: seq<int>, from: nat, to: nat): set<int>
    requires from <= to <= |q|
  {
    set k | from <= k < to :: q[k]
  }

  /** The queue holds every marked point exactly once, so it cannot overflow. */
  ghost predicate QueueHolds(q: seq<int>, end: nat, S: set<int>) {
    && end <= |q|
    && (forall k | 0 <= k < end :: q[k] in S)
    && (forall j, k | 0 <= j < k < end :: q[j] != q[k])
    && end == |S|
  }

  lemma Enqueue(q: seq<int>, end: nat, S: set<int>, t: int, q': seq<int>, start: nat)
    requires QueueHolds(q, end, S) && start <= end < |q| && t !in S && q' == q[end := t]
    ensures QueueHolds(q', end + 1, S + {t})
    ensures Waiting(q', start, end + 1) == Waiting(q, start, end) + {t}
  {
    forall x | x in Waiting(q, start, end) ensures x in Waiting(q', start, end + 1) {
      var k :| start <= k < end && q[k] == x;
      assert q'[k] == x;
    }
    assert q'[end] == t;
  }

  lemma Dequeue(q: seq<int>, start: nat, end: nat, S: set<int>)
    requires QueueHolds(q, end, S) && start < end
    ensures Waiting(q, start + 1, end) == Waiting(q, start, end) - {q[start]}
    ensures q[start] in Waiting(q, start, end) && q[start] in S
  {
    forall x | x in Waiting(q, start, end) - {q[start]} ensures x in Waiting(q, start + 1, end) {
      var k :| start <= k < end && q[k] == x;
      assert start + 1 <= k;
    }
  }

  lemma MarkOne(m: seq<Cell>, S: set<int>, t: int)
    requires 0 <= t < |m|
    ensures Marked(m, S)[t := Marked(m, S)[t].(reach := true)] == Marked(m, S + {t})
  {
  }

  /** What looking across cell c at location t is to find. */
  ghost function Find(m: seq<Cell>, c: int, t: int): set<int> {
    if Open(m, c) && 0 <= t < |m| && !m[t].reach then {t} else {}
  }

  /** Look across cell c at location t; a new find is marked and queued. */
  method Explore(maze: array<Cell>, q: array<int>, end: nat, c: int, t: int,
                 ghost m: seq<Cell>, ghost U: set<int>, ghost S: set<int>, ghost start: nat, ghost todo: set<int>)
    returns (end': nat, ghost S': set<int>)
    requires MarkerState(maze[..], q[..], start, end, m, U, S, todo)
    requires 0 <= c < maze.Length && 0 <= t < maze.Length
    requires Find(m, c, t) <= U
    modifies maze, q
    ensures S <= S' && Find(m, c, t) <= S' && S' <= S + Find(m, c, t)
    ensures MarkerState(maze[..], q[..], start, end', m, U, S', todo + (S' - S))
  {
    hide MarkerState;
    MarksSeen(maze[..], q[..], start, end, m, U, S, todo, c);
    MarksSeen(maze[..], q[..], start, end, m, U, S, todo, t);
    end', S' := end, S;
    if !maze[c].wall && !maze[t].reach {
      MarkAndQueue(maze[..], q[..], start, end, m, U, S, todo, t);
      maze[t] := maze[t].(reach := true);
      q[end] := t;
      end', S' := end + 1, S + {t};
      assert maze[..] == old(maze[..])[t := old(maze[..])[t].(reach := true)];
      assert q[..] == old(q[..])[end := t];
      assert todo + (S' - S) == todo + {t};
    } else {
      assert todo + (S' - S) == todo;
    }
  }

  lemma MarksSeen(mz: seq<Cell>, q: seq<int>, start: nat, end: nat, m: seq<Cell>, U: set<int>, S: set<int>, todo: set<int>, c: int)
    requires MarkerState(mz, q, start, end, m, U, S, todo) && 0 <= c < |mz|
    ensures |m| == |mz| && mz[c].wall == m[c].wall && (mz[c].reach <==> m[c].reach || c in S)
  {
  }

  lemma MarkAndQueue(mz: seq<Cell>, q: seq<int>, start: nat, end: nat, m: seq<Cell>, U: set<int>, S: set<int>, todo: set<int>, t: int)
    requires MarkerState(mz, q, start, end, m, U, S, todo) && t in U && t !in S && 0 <= t < |mz|
    ensures end < |q|
    ensures MarkerState(mz[t := mz[t].(reach := true)], q[end := t], start, end + 1, m, U, S + {t}, todo + {t})
  {
    hide Marked, QueueHolds, Waiting;
    MarkerBounds(mz, q, start, end, m, U, S, todo);
    ProperSubsetSmaller(S, U, t);
    MarkOne(m, S, t);
    Enqueue(q, end, S, t, q[end := t], start);
  }

  /** The arrays of the search: marks, queue, and the locations still waiting. */
  ghost predicate MarkerState(mz: seq<Cell>, q: seq<int>, start: nat, end: nat,
                              m: seq<Cell>, U: set<int>, S: set<int>, todo: set<int>) {
    && mz == Marked(m, S) && S <= U && |U| <= |q|
    && start <= end && QueueHolds(q, end, S) && todo == Waiting(q, start, end)
  }

  lemma ProperSubsetSmaller(S: set<int>, U: set<int>, t: int)
    requires S <= U && t in U && t !in S
    ensures |S| < |U|
  {
    assert S + {t} <= U;
    SubsetSmaller(S + {t}, U);
  }

  lemma {:induction false} SubsetSmaller<T>(S: set<T>, U: set<T>)
    requires S <= U
    ensures |S| <= |U|
  {
    if S != {} {
      var x :| x in S;
      SubsetSmaller(S - {x}, U - {x});
    }
  }

  /** mark_maze_area, started at flat index p of an array laid out with rows of
      width w whose lattice points are P: marks exactly the unreached points
      joined to p through unreached points, and counts them. */
  method MarkMazeArea(maze: array<Cell>, w: int, p: int, ghost P: set<int>) returns (marked: nat)
    requires GoodLattice(P, w) && LatticeShape(maze[..], P, w) && |P| <= QUEUE_SIZE
    requires p in Unreached(maze[..], P)
    modifies maze
    ensures maze[..] == Marked(old(maze[..]), Component(old(maze[..]), w, Unreached(old(maze[..]), P), p))
    ensures marked == |Component(old(maze[..]), w, Unreached(old(maze[..]), P), p)|
  {
    ghost var m := maze[..];
    ghost var U := Unreached(m, P);
    SubsetSmaller(U, P);
    var q := new int[QUEUE_SIZE];
    StartMarking(maze, q, p, m, U);
    var start: nat, end: nat := 0, 1;
    ghost var S, todo := {p}, {p};
    StartSearch(m, w, U, p);
    while start != end
      invariant MarkerState(maze[..], q[..], start, end, m, U, S, todo)
      invariant Searching(m, w, U, p, S, todo)
      decreases |U| - start
    {
      MarkerBounds(maze[..], q[..], start, end, m, U, S, todo);
      end, S, todo := ExploreNext(maze, q, w, start, end, m, P, U, p, S, todo);
      start := start + 1;
    }
    MarkerBounds(maze[..], q[..], start, end, m, U, S, todo);
    SearchComplete(m, w, U, p, S);
    marked := end;
  }

  lemma MarkerBounds(mz: seq<Cell>, q: seq<int>, start: nat, end: nat, m: seq<Cell>, U: set<int>, S: set<int>, todo: set<int>)
    requires MarkerState(mz, q, start, end, m, U, S, todo)
    ensures |mz| == |m| && mz == Marked(m, S) && start <= end == |S| <= |U| <= |q| && (start == end ==> todo == {})
  {
    SubsetSmaller(S, U);
  }

  /** One turn of the search: the next location is taken off the queue and explored. */
  method ExploreNext(maze: array<Cell>, q: array<int>, w: int, start: nat, end: nat, ghost m: seq<Cell>, ghost P: set<int>,
                     ghost U: set<int>, ghost p: int, ghost S: set<int>, ghost todo: set<int>)
    returns (end': nat, ghost S': set<int>, ghost todo': set<int>)
    requires GoodLattice(P, w) && LatticeShape(m, P, w) && U == Unreached(m, P) && start != end
    requires MarkerState(maze[..], q[..], start, end, m, U, S, todo) && Searching(m, w, U, p, S, todo)
    modifies maze, q
    ensures MarkerState(maze[..], q[..], start + 1, end', m, U, S', todo') && Searching(m, w, U, p, S', todo')
  {
    hide Searching, GoodLattice, LatticeShape, Found, SafeAround, QueueHolds, Waiting, Marked;
    MarkerBounds(maze[..], q[..], start, end, m, U, S, todo);
    var cur := q[start];
    Dequeue(q[..], start, end, S);
    ExploreIsSafe(m, P, w, U, cur);
    end', S' := ExploreAround(maze, q, w, cur, start + 1, end, m, U, S, todo - {cur});
    assert todo - {cur} + {cur} == todo;
    SearchStep(m, w, U, p, S, todo - {cur}, cur, S');
    todo' := todo - {cur} + (S' - S);
  }

  /** Mark the starting location as reached and put it into the queue. */
  method StartMarking(maze: array<Cell>, q: array<int>, p: int, ghost m: seq<Cell>, ghost U: set<int>)
    requires maze[..] == m && p in U && U <= Unreached(m, U) && |U| <= q.Length && q.Length > 0
    modifies maze, q
    ensures MarkerState(maze[..], q[..], 0, 1, m, U, {p}, {p})
  {
    q[0] := p;
    maze[p] := maze[p].(reach := true);
    assert maze[..] == Marked(m, {p});
    assert Waiting(q[..], 0, 1) == {p};
  }

  /** Explore the four directions from cur, just taken off the queue. */
  method ExploreAround(maze: array<Cell>, q: array<int>, w: int, cur: int, start: nat, end: nat,
                       ghost m: seq<Cell>, ghost U: set<int>, ghost S: set<int>, ghost todo: set<int>)
    returns (end': nat, ghost S': set<int>)
    requires SafeAround(m, U, w, cur)
    requires MarkerState(maze[..], q[..], start, end, m, U, S, todo)
    modifies maze, q
    ensures S <= S' && Found(m, w, cur) <= S' <= S + Found(m, w, cur)
    ensures MarkerState(maze[..], q[..], start, end', m, U, S', todo + (S' - S))
  {
    hide MarkerState, Find;
    MarkerBounds(maze[..], q[..], start, end, m, U, S, todo);
    ghost var S1, S2, S3;
    end', S1 := Explore(maze, q, end, cur - w, cur - 2 * w, m, U, S, start, todo);
    end', S2 := Explore(maze, q, end', cur + 1, cur + 2, m, U, S1, start, todo + (S1 - S));
    end', S3 := Explore(maze, q, end', cur + w, cur + 2 * w, m, U, S2, start, todo + (S1 - S) + (S2 - S1));
    end', S' := Explore(maze, q, end', cur - 1, cur - 2, m, U, S3, start, todo + (S1 - S) + (S2 - S1) + (S3 - S2));
    FourFinds(S, S1, S2, S3, S', todo, Find(m, cur - w, cur - 2 * w), Find(m, cur + 1, cur + 2),
              Find(m, cur + w, cur + 2 * w), Find(m, cur - 1, cur - 2));
  }

  lemma FourFinds<T>(S: set<T>, S1: set<T>, S2: set<T>, S3: set<T>, S4: set<T>, todo: set<T>,
                     F1: set<T>, F2: set<T>, F3: set<T>, F4: set<T>)
    requires S <= S1 && F1 <= S1 <= S + F1
    requires S1 <= S2 && F2 <= S2 <= S1 + F2
    requires S2 <= S3 && F3 <= S3 <= S2 + F3
    requires S3 <= S4 && F4 <= S4 <= S3 + F4
    ensures S <= S4 && F1 + F2 + F3 + F4 <= S4 <= S + (F1 + F2 + F3 + F4)
    ensures todo + (S1 - S) + (S2 - S1) + (S3 - S2) + (S4 - S3) == todo + (S4 - S)
  {
  }

  lemma StartSearch(m: seq<Cell>, w: int, U: set<int>, p: int)
    requires p in U
    ensures Searching(m, w, U, p, {p}, {p})
  {
    ConnectedToSelf(m, w, U, p);
  }

  /** The stencil around a point is inside the array, and every unmarked
      location past an open cell is an unreached point. */
  ghost predicate SafeAround(m: seq<Cell>, U: set<int>, w: int, cur: int) {
    && 0 <= cur - 2 * w && cur + 2 * w < |m| && 2 <= w
    && Find(m, cur - w, cur - 2 * w) <= U && Find(m, cur + 1, cur + 2) <= U
    && Find(m, cur + w, cur + 2 * w) <= U && Find(m, cur - 1, cur - 2) <= U
  }

  lemma ExploreIsSafe(m: seq<Cell>, P: set<int>, w: int, U: set<int>, cur: int)
    requires GoodLattice(P, w) && LatticeShape(m, P, w) && cur in P && U == Unreached(m, P)
    ensures SafeAround(m, U, w, cur)
  {
    FindsAreUnreached(m, P, w, U, cur, -w);
    FindsAreUnreached(m, P, w, U, cur, 1);
    FindsAreUnreached(m, P, w, U, cur, w);
    FindsAreUnreached(m, P, w, U, cur, -1);
  }

  lemma FindsAreUnreached(m: seq<Cell>, P: set<int>, w: int, U: set<int>, cur: int, s: int)
    requires GoodLattice(P, w) && LatticeShape(m, P, w) && cur in P && U == Unreached(m, P)
    requires s == -w || s == 1 || s == w || s == -1
    ensures Find(m, cur + s, cur + 2 * s) <= U
  {
    OpenLeadsOn(m, P, w, cur, s);
  }

  /** The unmarked locations one step from cur. */
  ghost function Found(m: seq<Cell>, w: int, cur: int): set<int> {
    Find(m, cur - w, cur - 2 * w) + Find(m, cur + 1, cur + 2)
    + Find(m, cur + w, cur + 2 * w) + Find(m, cur - 1, cur - 2)
  }

  /** One location has been explored in all four directions. */
  lemma SearchStep(m: seq<Cell>, w: int, U: set<int>, p: int, S: set<int>, todo: set<int>, cur: int, S': set<int>)
    requires SafeAround(m, U, w, cur) && U <= Unreached(m, U)
    requires Searching(m, w, U, p, S, todo + {cur}) && cur in S && S <= S'
    requires Found(m, w, cur) <= S' <= S + Found(m, w, cur)
    ensures Searching(m, w, U, p, S', todo + (S' - S))
  {
    forall b | b in Found(m, w, cur) ensures b in Component(m, w, U, p) {
      assert Edge(m, w, cur, b);
      ConnectedStep(m, w, U, p, cur, b);
    }
    forall b | b in U && Edge(m, w, cur, b) ensures b in S' {
      assert b in Found(m, w, cur);
    }
  }
}
