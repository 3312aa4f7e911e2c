// The points that the random numbers of make_maze pick, two numbers a point.
module MazeDraws {
  import opened Limits
  import opened MazeGrid

  /** The point that draw number k from a tape of random numbers picks. */
  ghost function PointDrawn(d: Dims, tape: seq<nat>, k: nat): int
    requires d.Valid() && 2 * k + 1 < |tape|
  {
    Point(d, tape[2 * k] % d.x, tape[2 * k + 1] % d.y)
  }

  /** Draw number n picks point (i,j), after n draws that miss W. */
  ghost predicate Drawn(d: Dims, tape: seq<nat>, W: set<int>, n: nat, i: int, j: int) {
    && d.Valid() && 2 * n + 2 <= |tape| && i == tape[2 * n] % d.x && j == tape[2 * n + 1] % d.y
    && forall k: nat | k < n :: PointDrawn(d, tape, k) !in W
  }

  /** The first draw that hits W picks (i,j), and `rest` is what it leaves of the tape. */
  ghost predicate FirstHit(d: Dims, tape: seq<nat>, W: set<int>, n: nat, i: int, j: int, rest: seq<nat>) {
    Drawn(d, tape, W, n, i, j) && Point(d, i, j) in W && rest == tape[2 * n + 2..]
  }

  /** No draw hits W before the tape ends. */
  ghost predicate NoHit(d: Dims, tape: seq<nat>, W: set<int>) {
    d.Valid() && forall k: nat | 2 * k + 1 < |tape| :: PointDrawn(d, tape, k) !in W
  }

  lemma FirstDraw(d: Dims, tape: seq<nat>, W: set<int>)
    requires d.Valid()
    ensures if |tape| >= 2 then Drawn(d, tape, W, 0, tape[0] % d.x, tape[1] % d.y) else NoHit(d, tape, W)
  {
  }

  lemma NextDraw(d: Dims, tape: seq<nat>, W: set<int>, n: nat, i: int, j: int, rest: seq<nat>)
    requires Drawn(d, tape, W, n, i, j) && Point(d, i, j) !in W && rest == tape[2 * n + 2..]
    ensures if |rest| >= 2 then Drawn(d, tape, W, n + 1, rest[0] % d.x, rest[1] % d.y) && rest[2..] == tape[2 * (n + 1) + 2..]
            else NoHit(d, tape, W)
  {
    hide Point;
    assert PointDrawn(d, tape, n) == Point(d, i, j);
  }

  /** The numbers decide which point is picked, and whether any is. */
  lemma OneFirstHit(d: Dims, tape: seq<nat>, W: set<int>, n: nat, i: int, j: int, rest: seq<nat>,
                    n': nat, i': int, j': int, rest': seq<nat>)
    requires FirstHit(d, tape, W, n, i, j, rest)
    ensures !NoHit(d, tape, W)
    ensures FirstHit(d, tape, W, n', i', j', rest') ==> n == n' && i == i' && j == j' && rest == rest'
  {
    hide Point;
    assert PointDrawn(d, tape, n) in W;
    if FirstHit(d, tape, W, n', i', j', rest') {
      assert PointDrawn(d, tape, n') in W;
    }
  }

  /** Any point that is wanted can be picked, at once, whatever is drawn afterwards. */
  lemma AnyPointCanBeDrawn(d: Dims, W: set<int>, i: nat, j: nat, rest: seq<nat>)
    requires d.Valid() && OnLattice(d, i, j) && Point(d, i, j) in W
    ensures FirstHit(d, [i, j] + rest, W, 0, i, j, rest)
  {
    hide Point;
    OnlyRest(i, d.x, 0, i);
    OnlyRest(j, d.y, 0, j);
  }
}
