// Reachability in a maze: what it means for two lattice points to be joined by
// open cells, and what marking and wall-breaking do to that relation.
module MazePaths {
  import opened MazeGrid

  ghost predicate Open(m: seq<Cell>, c: int) {
    0 <= c < |m| && !m[c].wall
  }

  /** q is two cells from p in one of the four directions, past an open cell. */
  ghost predicate Edge(m: seq<Cell>, w: int, p: int, q: int) {
    || (q == p - 2 * w && Open(m, p - w))
    || (q == p + 2 && Open(m, p + 1))
    || (q == p + 2 * w && Open(m, p + w))
    || (q == p - 2 && Open(m, p - 1))
  }

  /** A path that never leaves the set of points U. */
  ghost predicate IsPath(m: seq<Cell>, w: int, U: set<int>, s: seq<int>) {
    && |s| > 0
    && (forall k | 0 <= k < |s| :: s[k] in U)
    && (forall k | 0 <= k < |s| - 1 :: Edge(m, w, s[k], s[k + 1]))
  }

  ghost predicate Connected(m: seq<Cell>, w: int, U: set<int>, p: int, q: int) {
    exists s :: IsPath(m, w, U, s) && s[0] == p && s[|s| - 1] == q
  }

  /** All points of U joined to p inside U. */
  ghost function Component(m: seq<Cell>, w: int, U: set<int>, p: int): set<int> {
    set q | q in U && Connected(m, w, U, p, q)
  }

  ghost function Reached(m: seq<Cell>, P: set<int>): set<int> {
    set p | p in P && 0 <= p < |m| && m[p].reach
  }

  ghost function Unreached(m: seq<Cell>, P: set<int>): set<int> {
    set p | p in P && 0 <= p < |m| && !m[p].reach
  }

  /** The maze with the MAZE_REACH bit set on the cells of S. */
  ghost function Marked(m: seq<Cell>, S: set<int>): (r: seq<Cell>)
    ensures |r| == |m|
  {
    seq(|m|, i requires 0 <= i < |m| => if i in S then m[i].(reach := true) else m[i])
  }

  /** R swallows every open neighbour it has inside P. */
  ghost predicate ClosedIn(m: seq<Cell>, w: int, P: set<int>, R: set<int>) {
    forall p, q | p in R && q in P && Edge(m, w, p, q) :: q in R
  }

  lemma ConnectedToSelf(m: seq<Cell>, w: int, U: set<int>, p: int)
    requires p in U
    ensures Connected(m, w, U, p, p)
  {
    assert IsPath(m, w, U, [p]);
  }

  lemma ConnectedStep(m: seq<Cell>, w: int, U: set<int>, p: int, q: int, r: int)
    requires Connected(m, w, U, p, q) && Edge(m, w, q, r) && r in U
    ensures Connected(m, w, U, p, r)
  {
    var s :| IsPath(m, w, U, s) && s[0] == p && s[|s| - 1] == q;
    assert IsPath(m, w, U, s + [r]);
    assert (s + [r])[|s + [r]| - 1] == r;
  }

  lemma ConnectedTransitive(m: seq<Cell>, w: int, U: set<int>, p: int, q: int, r: int)
    requires Connected(m, w, U, p, q) && Connected(m, w, U, q, r)
    ensures Connected(m, w, U, p, r)
  {
    var s :| IsPath(m, w, U, s) && s[0] == p && s[|s| - 1] == q;
    var t :| IsPath(m, w, U, t) && t[0] == q && t[|t| - 1] == r;
    var u := s + t[1..];
    forall k | 0 <= k < |u| - 1 ensures Edge(m, w, u[k], u[k + 1]) {
      if k < |s| - 1 {
        assert u[k] == s[k] && u[k + 1] == s[k + 1];
      } else {
        assert u[k] == t[k - |s| + 1] && u[k + 1] == t[k - |s| + 2];
      }
    }
    assert IsPath(m, w, U, u) && u[0] == p && u[|u| - 1] == r;
  }

  lemma ConnectedSymmetric(m: seq<Cell>, w: int, U: set<int>, p: int, q: int)
    requires Connected(m, w, U, p, q)
    ensures Connected(m, w, U, q, p)
  {
    var s :| IsPath(m, w, U, s) && s[0] == p && s[|s| - 1] == q;
    var n := |s|;
    var t := seq(n, k requires 0 <= k < n => s[n - 1 - k]);
    forall k | 0 <= k < n - 1 ensures Edge(m, w, t[k], t[k + 1]) {
      assert t[k] == s[n - 1 - k] && t[k + 1] == s[n - 2 - k];
      assert Edge(m, w, s[n - 2 - k], s[(n - 2 - k) + 1]);
    }
    assert IsPath(m, w, U, t) && t[0] == q && t[|t| - 1] == p;
  }

  /** Opening cells and widening the region keep points connected. */
  lemma ConnectedMonotone(m: seq<Cell>, m': seq<Cell>, w: int, U: set<int>, U': set<int>, p: int, q: int)
    requires Connected(m, w, U, p, q) && U <= U'
    requires |m| == |m'| && forall c | 0 <= c < |m| && !m[c].wall :: !m'[c].wall
    ensures Connected(m', w, U', p, q)
  {
    var s :| IsPath(m, w, U, s) && s[0] == p && s[|s| - 1] == q;
    forall k | 0 <= k < |s| - 1 ensures Edge(m', w, s[k], s[k + 1]) {
      assert Edge(m, w, s[k], s[k + 1]);
    }
    assert IsPath(m', w, U', s);
  }

  /** Nothing outside a closed set is connected to a point inside it. */
  lemma ClosedHoldsConnected(m: seq<Cell>, w: int, U: set<int>, C: set<int>, p: int, q: int)
    requires Connected(m, w, U, p, q) && p in C && ClosedIn(m, w, U, C)
    ensures q in C
  {
    var s :| IsPath(m, w, U, s) && s[0] == p && s[|s| - 1] == q;
    PathStaysInClosed(m, w, U, C, s, |s| - 1);
  }

  lemma {:induction false} PathStaysInClosed(m: seq<Cell>, w: int, U: set<int>, C: set<int>, s: seq<int>, k: nat)
    requires IsPath(m, w, U, s) && s[0] in C && ClosedIn(m, w, U, C) && k < |s|
    ensures s[k] in C
  {
    if k > 0 {
      PathStaysInClosed(m, w, U, C, s, k - 1);
      assert Edge(m, w, s[k - 1], s[(k - 1) + 1]);
    }
  }

  lemma MarkingKeepsEdges(m: seq<Cell>, S: set<int>, w: int, p: int, q: int)
    ensures Edge(Marked(m, S), w, p, q) <==> Edge(m, w, p, q)
  {
  }

  /** Every open cell beside a point leads to another point. */
  lemma OpenLeadsOn(m: seq<Cell>, P: set<int>, w: int, p: int, s: int)
    requires GoodLattice(P, w) && LatticeShape(m, P, w)
    requires p in P && (s == -w || s == 1 || s == w || s == -1)
    ensures Open(m, p + s) ==> p + 2 * s in P
  {
    if Open(m, p + s) {
      assert Diggable(P, w, p + s);
      BeyondDiggable(P, w, p, s);
    }
  }

  /** A diggable cell beside a point lies between that point and another. */
  lemma BeyondDiggable(P: set<int>, w: int, p: int, s: int)
    requires GoodLattice(P, w) && p in P && (s == -w || s == 1 || s == w || s == -1)
    requires Diggable(P, w, p + s)
    ensures p + 2 * s in P
  {
    var c := p + s;
    assert c !in P;
    if s == 1 || s == -1 {
      assert c - w !in P;
    } else {
      assert c - 1 !in P;
    }
  }

  /** Clearing a diggable cell keeps the lattice shape. */
  lemma DiggingKeepsShape(m: seq<Cell>, P: set<int>, w: int, c: int)
    requires LatticeShape(m, P, w) && 0 <= c < |m| && Diggable(P, w, c)
    ensures LatticeShape(m[c := MAZE_NONE], P, w)
  {
  }

  // ----- the invariant of the second phase of make_maze -----

  /** Exactly the points joined to `origin` are marked, and nothing off the
      lattice is. */
  ghost predicate ReachedAreClosed(m: seq<Cell>, w: int, P: set<int>, origin: int) {
    && origin in Reached(m, P)
    && ClosedIn(m, w, P, Reached(m, P))
    && (forall q | q in Reached(m, P) :: Connected(m, w, P, origin, q))
    && (forall c | 0 <= c < |m| && m[c].reach :: c in P)
  }

  /** Marking the component of the origin establishes the invariant. */
  lemma FirstMark(m: seq<Cell>, w: int, P: set<int>, origin: int)
    requires origin in P && (forall p | p in P :: 0 <= p < |m|)
    requires forall c | 0 <= c < |m| :: !m[c].reach
    ensures ReachedAreClosed(Marked(m, Component(m, w, P, origin)), w, P, origin)
    ensures Reached(Marked(m, Component(m, w, P, origin)), P) == Component(m, w, P, origin)
  {
    var N := Component(m, w, P, origin);
    var m' := Marked(m, N);
    assert Reached(m', P) == N;
    ConnectedToSelf(m, w, P, origin);
    forall p, q | p in N && q in P && Edge(m', w, p, q) ensures q in N {
      MarkingKeepsEdges(m, N, w, p, q);
      ConnectedStep(m, w, P, origin, p, q);
    }
    forall q | q in N ensures Connected(m', w, P, origin, q) {
      ConnectedMonotone(m, m', w, P, P, origin, q);
    }
  }

  /** The only edge a broken wall adds is the one across it. */
  lemma NewEdge(m: seq<Cell>, P: set<int>, w: int, p: int, r: int, c: int, a: int, b: int)
    requires GoodLattice(P, w) && p in P && r in P && p + r == 2 * c && 0 <= c < |m|
    requires a in P && b in P && Edge(m[c := MAZE_NONE], w, a, b)
    requires c == p - w || c == p + w || c == p - 1 || c == p + 1
    ensures Edge(m, w, a, b) || (a == p && b == r) || (a == r && b == p)
  {
  }

  /** Knocking down the wall between an unreached point p and a reached point r,
      then marking p's unreached area, restores the invariant. */
  lemma BreakAndMark(m: seq<Cell>, w: int, P: set<int>, origin: int, p: int, r: int, c: int)
    requires GoodLattice(P, w) && |m| == MAZE_SIZE && ReachedAreClosed(m, w, P, origin)
    requires p in Unreached(m, P) && r in Reached(m, P) && p + r == 2 * c
    requires c == p - w || c == p + w || c == p - 1 || c == p + 1
    ensures var m1 := m[c := MAZE_NONE];
            var N := Component(m1, w, Unreached(m1, P), p);
            && Unreached(m1, P) == Unreached(m, P)
            && p in N && N <= Unreached(m, P)
            && ReachedAreClosed(Marked(m1, N), w, P, origin)
            && Reached(Marked(m1, N), P) == Reached(m, P) + N
            && Unreached(Marked(m1, N), P) == Unreached(m, P) - N
  {
    var m1 := m[c := MAZE_NONE];
    BreakKeepsMarks(m, w, P, p, r, c);
    var U, R := Unreached(m, P), Reached(m, P);
    var N := Component(m1, w, U, p);
    var m2 := Marked(m1, N);
    assert p in N by { ConnectedToSelf(m1, w, U, p); }
    MarkedMore(m1, P, N);
    hide Marked;
    BrokenIsClosed(m, m1, w, P, p, r, c, N);
    AllJoined(m, w, P, origin, p, r, c);
  }

  /** Across the broken wall everything marked is connected to the origin. */
  lemma AllJoined(m: seq<Cell>, w: int, P: set<int>, origin: int, p: int, r: int, c: int)
    requires ReachedAreClosed(m, w, P, origin) && 0 <= c < |m| && p in P && r in Reached(m, P)
    requires Edge(m[c := MAZE_NONE], w, r, p)
    ensures var N := Component(m[c := MAZE_NONE], w, Unreached(m, P), p);
      forall q | q in Reached(m, P) + N :: Connected(Marked(m[c := MAZE_NONE], N), w, P, origin, q)
  {
    var m1 := m[c := MAZE_NONE];
    var N := Component(m1, w, Unreached(m, P), p);
    var m2 := Marked(m1, N);
    assert forall k | 0 <= k < |m| && !m1[k].wall :: !m2[k].wall;
    hide Marked, Component, Connected, ClosedIn;
    forall q | q in Reached(m, P) + N ensures Connected(m2, w, P, origin, q) {
      JoinThroughWall(m, m1, m2, w, P, origin, p, r, q);
    }
  }

  lemma MarkedMore(m: seq<Cell>, P: set<int>, N: set<int>)
    requires N <= Unreached(m, P)
    ensures Reached(Marked(m, N), P) == Reached(m, P) + N
    ensures Unreached(Marked(m, N), P) == Unreached(m, P) - N
  {
  }

  lemma BrokenIsClosed(m: seq<Cell>, m1: seq<Cell>, w: int, P: set<int>, p: int, r: int, c: int, N: set<int>)
    requires GoodLattice(P, w) && |m| == MAZE_SIZE && ClosedIn(m, w, P, Reached(m, P))
    requires p in Unreached(m, P) && r in Reached(m, P) && p + r == 2 * c && 0 <= c < |m|
    requires c == p - w || c == p + w || c == p - 1 || c == p + 1
    requires m1 == m[c := MAZE_NONE] && N == Component(m1, w, Unreached(m, P), p) && p in N
    ensures ClosedIn(Marked(m1, N), w, P, Reached(m, P) + N)
  {
    var U, R := Unreached(m, P), Reached(m, P);
    forall a, b | a in R + N && b in P && Edge(Marked(m1, N), w, a, b) ensures b in R + N {
      MarkingKeepsEdges(m1, N, w, a, b);
      if a in N {
        if b in U { ConnectedStep(m1, w, U, p, a, b); }
      } else {
        NewEdge(m, P, w, p, r, c, a, b);
      }
    }
  }

  lemma BreakKeepsMarks(m: seq<Cell>, w: int, P: set<int>, p: int, r: int, c: int)
    requires GoodLattice(P, w) && |m| == MAZE_SIZE && p in P && r in P && p + r == 2 * c
    requires c == p - w || c == p + w || c == p - 1 || c == p + 1
    requires forall c | 0 <= c < |m| && m[c].reach :: c in P
    ensures 0 <= c < |m| && c !in P && Diggable(P, w, c)
    ensures Unreached(m[c := MAZE_NONE], P) == Unreached(m, P)
    ensures Reached(m[c := MAZE_NONE], P) == Reached(m, P)
    ensures Edge(m[c := MAZE_NONE], w, r, p)
  {
    assert c !in P;
  }

  lemma JoinThroughWall(m: seq<Cell>, m1: seq<Cell>, m2: seq<Cell>, w: int, P: set<int>,
                        origin: int, p: int, r: int, q: int)
    requires |m| == |m1| == |m2| && ReachedAreClosed(m, w, P, origin)
    requires forall c | 0 <= c < |m| && !m[c].wall :: !m1[c].wall
    requires forall c | 0 <= c < |m| && !m1[c].wall :: !m2[c].wall
    requires r in Reached(m, P) && p in P && Edge(m1, w, r, p)
    requires q in Reached(m, P) + Component(m1, w, Unreached(m, P), p)
    ensures Connected(m2, w, P, origin, q)
  {
    if q in Reached(m, P) {
      ConnectedMonotone(m, m2, w, P, P, origin, q);
    } else {
      ConnectedMonotone(m, m1, w, P, P, origin, r);
      ConnectedStep(m1, w, P, origin, r, p);
      ConnectedMonotone(m1, m1, w, Unreached(m, P), P, p, q);
      ConnectedTransitive(m1, w, P, origin, p, q);
      ConnectedMonotone(m1, m2, w, P, P, origin, q);
    }
  }

  // ----- walking cell by cell -----

  /** A walk over open cells, one orthogonal step at a time. */
  ghost predicate OpenWalk(m: seq<Cell>, w: int, s: seq<int>) {
    && |s| > 0
    && (forall k | 0 <= k < |s| :: Open(m, s[k]))
    && (forall k | 0 <= k < |s| - 1 ::
          s[k + 1] == s[k] - w || s[k + 1] == s[k] + 1 || s[k + 1] == s[k] + w || s[k + 1] == s[k] - 1)
  }

  ghost predicate Walk(m: seq<Cell>, w: int, p: int, q: int) {
    exists s :: OpenWalk(m, w, s) && s[0] == p && s[|s| - 1] == q
  }

  /** Points connected over open points are joined by a walk of open cells. */
  lemma ConnectedWalk(m: seq<Cell>, w: int, P: set<int>, p: int, q: int)
    requires Connected(m, w, P, p, q) && forall a | a in P :: Open(m, a)
    ensures Walk(m, w, p, q)
  {
    var s :| IsPath(m, w, P, s) && s[0] == p && s[|s| - 1] == q;
    PathWalk(m, w, P, s, |s| - 1);
  }

  /** A walk followed by one more edge, through the open cell in between. */
  lemma WalkEdge(m: seq<Cell>, w: int, p: int, q: int, r: int)
    requires Walk(m, w, p, q) && Edge(m, w, q, r) && Open(m, r)
    ensures Walk(m, w, p, r)
  {
    if r == q - 2 * w && Open(m, q - w) {
      WalkStep(m, w, p, q, q - w);
      WalkStep(m, w, p, q - w, r);
    } else if r == q + 2 * w && Open(m, q + w) {
      WalkStep(m, w, p, q, q + w);
      WalkStep(m, w, p, q + w, r);
    } else if r == q + 2 && Open(m, q + 1) {
      WalkStep(m, w, p, q, q + 1);
      WalkStep(m, w, p, q + 1, r);
    } else {
      WalkStep(m, w, p, q, q - 1);
      WalkStep(m, w, p, q - 1, r);
    }
  }

  lemma WalkStep(m: seq<Cell>, w: int, p: int, q: int, r: int)
    requires Walk(m, w, p, q) && Open(m, r)
    requires r == q - w || r == q + 1 || r == q + w || r == q - 1
    ensures Walk(m, w, p, r)
  {
    var t :| OpenWalk(m, w, t) && t[0] == p && t[|t| - 1] == q;
    var u := t + [r];
    assert OpenWalk(m, w, u) && u[0] == p && u[|u| - 1] == r;
  }

  lemma {:induction false} PathWalk(m: seq<Cell>, w: int, P: set<int>, s: seq<int>, n: nat)
    requires IsPath(m, w, P, s) && n < |s| && forall a | a in P :: Open(m, a)
    ensures Walk(m, w, s[0], s[n])
  {
    if n == 0 {
      assert OpenWalk(m, w, [s[0]]) && [s[0]][0] == s[0];
    } else {
      PathWalk(m, w, P, s, n - 1);
      assert Edge(m, w, s[n - 1], s[(n - 1) + 1]);
      WalkEdge(m, w, s[0], s[n - 1], s[n]);
    }
  }
}
