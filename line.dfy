/**
 The cells visited by the integer line traversal of `drawLine` (Bresenham's
 algorithm, all-octant variant with error term `dj - di`), as a specification
 function, and what the traversal guarantees: it stops, it starts at the first
 end point and stops at the second, every step moves to one of the 8
 neighbouring cells in the direction of the end point, it never leaves the
 bounding box of the two end points and it never visits a cell twice.
 */
module Line {

  /** A grid coordinate: `i` is the row, `j` the column. */
  datatype Point = Point(i: int, j: int)

  function Abs(x: int): nat {
    if x < 0 then -x else x
  }

  function Max(x: int, y: int): int {
    if x < y then y else x
  }

  function Min(x: int, y: int): int {
    if y < x then y else x
  }

  /** The unit step from `from` toward `to` on one axis (`stepI`, `stepJ`); -1 when they are equal. */
  function Dir(from: int, to: int): int {
    if from < to then 1 else -1
  }

  /** The state of the traversal loop: the current cell and the error term. */
  datatype Cursor = Cursor(i: int, j: int, err: int)

  /** The state before the first iteration: the first end point, `err = dj - di`. */
  function Start(a: Point, b: Point): Cursor {
    Cursor(a.i, a.j, Abs(b.j - a.j) - Abs(b.i - a.i))
  }

  /** The loop stops once the cursor is on the second end point. */
  predicate AtEnd(b: Point, c: Cursor) {
    c.i == b.i && c.j == b.j
  }

  /** One iteration of the loop after the end test: both tests read the same `e2`. */
  function Step(a: Point, b: Point, c: Cursor): Cursor {
    var di: int, dj: int := Abs(b.i - a.i), Abs(b.j - a.j);
    var e2 := 2 * c.err;
    Cursor(
      if e2 <= dj then c.i + Dir(a.i, b.i) else c.i,
      if e2 >= -di then c.j + Dir(a.j, b.j) else c.j,
      c.err - (if e2 >= -di then di else 0) + (if e2 <= dj then dj else 0))
  }

  /** How far `cur` lies from `from` in the direction of `to`. */
  function Advance(from: int, to: int, cur: int): int {
    if from < to then cur - from else from - cur
  }

  /**
   The loop invariant of the traversal: after `x` column steps and `y` row
   steps, neither axis has overshot its end point and the error term is
   `dj - di - x * di + y * dj`.
   */
  ghost predicate OnTrack(a: Point, b: Point, c: Cursor) {
    var di, dj := Abs(b.i - a.i), Abs(b.j - a.j);
    var x, y := Advance(a.j, b.j, c.j), Advance(a.i, b.i, c.i);
    0 <= x <= dj && 0 <= y <= di && c.err == dj - di - x * di + y * dj
  }

  /** The steps still to take on both axes together: the termination measure of the loop. */
  ghost function Remaining(a: Point, b: Point, c: Cursor): nat
    requires OnTrack(a, b, c)
  {
    Distance(a, b, Point(c.i, c.j))
  }

  /** `q` follows `p` on a traversal from `a` to `b`: an 8-neighbour, in the direction of `b`. */
  predicate Adjacent(a: Point, b: Point, p: Point, q: Point) {
    && (q.i == p.i || q.i == p.i + Dir(a.i, b.i))
    && (q.j == p.j || q.j == p.j + Dir(a.j, b.j))
    && q != p
  }

  predicate Between(x: int, y: int, z: int) {
    (x <= y <= z) || (z <= y <= x)
  }

  /** `p` lies in the bounding box of the segment from `a` to `b`. */
  predicate Within(a: Point, b: Point, p: Point) {
    Between(a.i, p.i, b.i) && Between(a.j, p.j, b.j)
  }

  lemma OnTrackWithin(a: Point, b: Point, c: Cursor)
    requires OnTrack(a, b, c)
    ensures Within(a, b, Point(c.i, c.j))
  {
  }

  lemma MulSigns(p: int, q: int)
    requires p >= 0
    ensures q <= 0 ==> p * q <= 0
    ensures q >= 1 ==> p * q >= p
  {
  }

  /** With every column step taken and rows left, the error term forbids another column step. */
  lemma NoColumnOvershoot(di: int, dj: int, y: int, err: int)
    requires 0 <= y < di && 0 <= dj
    requires err == dj - di - dj * di + y * dj
    ensures 2 * err < -di
  {
    assert err == dj * (1 + y - di) - di;
    MulSigns(dj, 1 + y - di);
  }

  /** With every row step taken and columns left, the error term forbids another row step. */
  lemma NoRowOvershoot(di: int, dj: int, x: int, err: int)
    requires 0 <= x < dj && 0 <= di
    requires err == dj - di - x * di + di * dj
    ensures 2 * err > dj
  {
    assert err == dj - di + di * (dj - x);
    MulSigns(di, dj - x);
  }

  /** Taking `sx` column steps and `sy` row steps updates the error term by `-sx * di + sy * dj`. */
  lemma ErrorUpdate(di: int, dj: int, x: int, y: int, sx: int, sy: int)
    ensures dj - di - (x + sx) * di + (y + sy) * dj == (dj - di - x * di + y * dj) - sx * di + sy * dj
  {
  }

  /**
   One iteration keeps the invariant, takes at least one step, moves each
   coordinate by at most one unit toward the end point, and so brings the
   cursor strictly closer to it: neither axis overshoots.
   */
  lemma StepAdvances(a: Point, b: Point, c: Cursor)
    requires OnTrack(a, b, c) && !AtEnd(b, c)
    ensures OnTrack(a, b, Step(a, b, c))
    ensures Remaining(a, b, Step(a, b, c)) < Remaining(a, b, c)
    ensures Adjacent(a, b, Point(c.i, c.j), Point(Step(a, b, c).i, Step(a, b, c).j))
  {
    var di: int, dj: int := Abs(b.i - a.i), Abs(b.j - a.j);
    var x, y := Advance(a.j, b.j, c.j), Advance(a.i, b.i, c.i);
    var e2 := 2 * c.err;
    if x == dj {
      NoColumnOvershoot(di, dj, y, c.err);
    }
    if y == di {
      NoRowOvershoot(di, dj, x, c.err);
    }
    var sx, sy := if e2 >= -di then 1 else 0, if e2 <= dj then 1 else 0;
    ErrorUpdate(di, dj, x, y, sx, sy);
    var s := Step(a, b, c);
    assert s.err == c.err - sx * di + sy * dj;
    assert Advance(a.j, b.j, s.j) == x + sx;
    assert Advance(a.i, b.i, s.i) == y + sy;
  }

  /**
   The cells the loop visits from cursor `c` on, in order: the current cell,
   then the cells from the next cursor, until the end point has been visited.
   */
  ghost function Walk(a: Point, b: Point, c: Cursor): (path: seq<Point>)
    requires OnTrack(a, b, c)
    ensures |path| >= 1 && path[0] == Point(c.i, c.j) && path[|path| - 1] == b
    decreases Remaining(a, b, c)
  {
    if AtEnd(b, c) then [b]
    else
      StepAdvances(a, b, c);
      [Point(c.i, c.j)] + Walk(a, b, Step(a, b, c))
  }

  /** Away from the end point, the walk is the current cell followed by the walk from the next cursor. */
  lemma WalkUnfold(a: Point, b: Point, c: Cursor)
    requires OnTrack(a, b, c) && !AtEnd(b, c)
    ensures OnTrack(a, b, Step(a, b, c))
    ensures Walk(a, b, c) == [Point(c.i, c.j)] + Walk(a, b, Step(a, b, c))
  {
    StepAdvances(a, b, c);
  }

  lemma StartOnTrack(a: Point, b: Point)
    ensures OnTrack(a, b, Start(a, b))
  {
  }

  lemma {:induction false} WalkShape(a: Point, b: Point, c: Cursor)
    requires OnTrack(a, b, c)
    ensures forall k :: 0 <= k < |Walk(a, b, c)| ==> Within(a, b, Walk(a, b, c)[k])
    ensures forall k :: 0 <= k < |Walk(a, b, c)| - 1 ==> Adjacent(a, b, Walk(a, b, c)[k], Walk(a, b, c)[k + 1])
    decreases Remaining(a, b, c)
  {
    OnTrackWithin(a, b, c);
    if !AtEnd(b, c) {
      StepAdvances(a, b, c);
      WalkShape(a, b, Step(a, b, c));
    }
  }

  /** The steps still to take from cell `p`; it decreases strictly along a traversal. */
  function Distance(a: Point, b: Point, p: Point): int {
    (Abs(b.j - a.j) - Advance(a.j, b.j, p.j)) + (Abs(b.i - a.i) - Advance(a.i, b.i, p.i))
  }

  lemma {:induction false} WalkDescends(a: Point, b: Point, c: Cursor)
    requires OnTrack(a, b, c)
    ensures forall k, l :: 0 <= k < l < |Walk(a, b, c)| ==>
      Distance(a, b, Walk(a, b, c)[l]) < Distance(a, b, Walk(a, b, c)[k])
    decreases Remaining(a, b, c)
  {
    if !AtEnd(b, c) {
      var s := Step(a, b, c);
      StepAdvances(a, b, c);
      WalkDescends(a, b, s);
      var rest := Walk(a, b, s);
      assert Walk(a, b, c) == [Point(c.i, c.j)] + rest;
      forall l | 1 <= l < |Walk(a, b, c)|
        ensures Distance(a, b, Walk(a, b, c)[l]) < Distance(a, b, Point(c.i, c.j))
      {
        if l > 1 {
          assert Distance(a, b, rest[l - 1]) < Distance(a, b, rest[0]);
        }
      }
    }
  }

  /**
   The error term stays on the side that lets the major axis advance: with
   more columns than rows every step takes a column step, otherwise every
   step takes a row step.
   */
  ghost predicate Balanced(a: Point, b: Point, c: Cursor) {
    var di: int, dj: int := Abs(b.i - a.i), Abs(b.j - a.j);
    (dj >= di ==> 2 * c.err >= -di) && (di > dj ==> 2 * c.err <= dj)
  }

  lemma StepBalanced(a: Point, b: Point, c: Cursor)
    requires OnTrack(a, b, c) && Balanced(a, b, c) && !AtEnd(b, c)
    ensures Balanced(a, b, Step(a, b, c))
  {
  }

  lemma {:induction false} WalkLength(a: Point, b: Point, c: Cursor)
    requires OnTrack(a, b, c) && Balanced(a, b, c)
    ensures Abs(b.j - a.j) >= Abs(b.i - a.i) ==> |Walk(a, b, c)| == Abs(b.j - a.j) - Advance(a.j, b.j, c.j) + 1
    ensures Abs(b.j - a.j) < Abs(b.i - a.i) ==> |Walk(a, b, c)| == Abs(b.i - a.i) - Advance(a.i, b.i, c.i) + 1
    decreases Remaining(a, b, c)
  {
    if !AtEnd(b, c) {
      StepAdvances(a, b, c);
      StepBalanced(a, b, c);
      WalkLength(a, b, Step(a, b, c));
    }
  }

  /** One iteration of the loop, or none once it is on the end point. */
  function Next(a: Point, b: Point, c: Cursor): Cursor {
    if AtEnd(b, c) then c else Step(a, b, c)
  }

  /** The state after `k` more iterations from `c`. */
  function Iterate(a: Point, b: Point, c: Cursor, k: nat): Cursor
    decreases k
  {
    if k == 0 then c else Iterate(a, b, Next(a, b, c), k - 1)
  }

  lemma {:induction false} IterateLast(a: Point, b: Point, c: Cursor, k: nat)
    ensures Iterate(a, b, c, k + 1) == Next(a, b, Iterate(a, b, c, k))
    decreases k
  {
    if k > 0 {
      IterateLast(a, b, Next(a, b, c), k - 1);
    }
  }

  /** The state of the loop after `k` iterations. */
  function Trace(a: Point, b: Point, k: nat): Cursor {
    Iterate(a, b, Start(a, b), k)
  }

  /** Away from the end point, one more iteration is one more `Step`. */
  lemma TraceNext(a: Point, b: Point, k: nat)
    requires !AtEnd(b, Trace(a, b, k))
    ensures Trace(a, b, k + 1) == Step(a, b, Trace(a, b, k))
  {
    IterateLast(a, b, Start(a, b), k);
  }

  /** The number of iterations the loop makes before it reaches the end point: the longer axis. */
  function Span(a: Point, b: Point): nat {
    Max(Abs(b.i - a.i), Abs(b.j - a.j))
  }

  /**
   The cells `drawLine` visits for the segment from `a` to `b`, in order:
   the cell of the loop state after each of the `Span(a, b) + 1` iterations.
   */
  function LinePath(a: Point, b: Point): seq<Point> {
    seq(Span(a, b) + 1, t requires 0 <= t => Point(Trace(a, b, t).i, Trace(a, b, t).j))
  }

  /** The walk from the start has one cell per unit of the longer axis, plus the first end point. */
  lemma StartWalkLength(a: Point, b: Point)
    ensures OnTrack(a, b, Start(a, b))
    ensures |Walk(a, b, Start(a, b))| == Span(a, b) + 1
  {
    StartOnTrack(a, b);
    WalkLength(a, b, Start(a, b));
  }

  /** The walk from the start, from its cell `k` on, is the walk from the state after `k` iterations. */
  lemma {:induction false} TraceSuffix(a: Point, b: Point, k: nat)
    requires k <= Span(a, b)
    ensures OnTrack(a, b, Start(a, b)) && |Walk(a, b, Start(a, b))| == Span(a, b) + 1
    ensures OnTrack(a, b, Trace(a, b, k))
    ensures Walk(a, b, Start(a, b))[k..] == Walk(a, b, Trace(a, b, k))
  {
    StartWalkLength(a, b);
    if k > 0 {
      TraceSuffix(a, b, k - 1);
      var c := Trace(a, b, k - 1);
      IterateLast(a, b, Start(a, b), k - 1);
      assert !AtEnd(b, c);
      WalkUnfold(a, b, c);
      var w := Walk(a, b, Start(a, b));
      assert w[k..] == w[k - 1..][1..];
    }
  }

  /** The path and the recursive walk from the start are the same sequence of cells. */
  lemma PathIsWalk(a: Point, b: Point)
    ensures OnTrack(a, b, Start(a, b))
    ensures LinePath(a, b) == Walk(a, b, Start(a, b))
  {
    StartWalkLength(a, b);
    var w := Walk(a, b, Start(a, b));
    forall k | 0 <= k < |w|
      ensures w[k] == LinePath(a, b)[k]
    {
      TraceSuffix(a, b, k);
    }
  }

  /**
   The loop is on the end point after `Span(a, b)` iterations and on no
   earlier iteration: it stops exactly when the path is complete.
   */
  lemma TraceEnd(a: Point, b: Point, k: nat)
    requires k <= Span(a, b)
    ensures AtEnd(b, Trace(a, b, k)) <==> k == Span(a, b)
  {
    TraceSuffix(a, b, k);
    StartWalkLength(a, b);
    var c := Trace(a, b, k);
    if !AtEnd(b, c) {
      WalkUnfold(a, b, c);
    }
  }

  /** A segment starts at its first end point and ends at its second. */
  lemma PathEnds(a: Point, b: Point)
    ensures |LinePath(a, b)| >= 1
    ensures LinePath(a, b)[0] == a
    ensures LinePath(a, b)[|LinePath(a, b)| - 1] == b
  {
    PathIsWalk(a, b);
  }

  /** A zero-length segment visits exactly its one cell. */
  lemma ZeroLength(p: Point)
    ensures LinePath(p, p) == [p]
  {
  }

  /**
   Every cell of a segment lies in the bounding box of its end points, and
   consecutive cells are 8-neighbours, each step moving toward the end point.
   */
  lemma PathShape(a: Point, b: Point)
    ensures forall k :: 0 <= k < |LinePath(a, b)| ==> Within(a, b, LinePath(a, b)[k])
    ensures forall k :: 0 <= k < |LinePath(a, b)| - 1 ==> Adjacent(a, b, LinePath(a, b)[k], LinePath(a, b)[k + 1])
  {
    PathIsWalk(a, b);
    WalkShape(a, b, Start(a, b));
  }

  /** A traversal visits every cell of its path exactly once. */
  lemma NoRevisit(a: Point, b: Point)
    ensures forall k, l :: 0 <= k < l < |LinePath(a, b)| ==> LinePath(a, b)[k] != LinePath(a, b)[l]
  {
    PathIsWalk(a, b);
    WalkDescends(a, b, Start(a, b));
  }

  /** The cells the loop has visited in its first `k` iterations. */
  function Visited(a: Point, b: Point, k: nat): set<Point> {
    if k == 0 then {}
    else Visited(a, b, k - 1) + {Point(Trace(a, b, k - 1).i, Trace(a, b, k - 1).j)}
  }

  /** The cells visited in the first `k` iterations are the first `k` cells of the path. */
  lemma {:induction false} VisitedPrefix(a: Point, b: Point, k: nat)
    requires k <= |LinePath(a, b)|
    ensures forall p :: p in Visited(a, b, k) <==> p in LinePath(a, b)[..k]
  {
    if k > 0 {
      VisitedPrefix(a, b, k - 1);
      var path := LinePath(a, b);
      assert path[..k] == path[..k - 1] + [path[k - 1]];
    }
  }

  /** The cells visited in the `Span(a, b) + 1` iterations are the cells of the path. */
  lemma VisitedPath(a: Point, b: Point)
    ensures forall p :: p in Visited(a, b, Span(a, b) + 1) <==> p in LinePath(a, b)
  {
    VisitedPrefix(a, b, Span(a, b) + 1);
    assert LinePath(a, b)[..Span(a, b) + 1] == LinePath(a, b);
  }
}
