/**
 The string-art solver of app/utils.ts: Bresenham line drawing into a grid,
 the image of a polyline, the match count of two images and the greedy
 search over point positions. Grids are two-dimensional arrays written in
 place; each method is tied to the value-level definitions of `Line`,
 `Raster` and `Climb`.
 */
module Utils {
  import opened Line
  import opened Raster
  import opened Climb

  /**
   `floor(random * (max - min + 1)) + min` for a `random` in `[0, 1)`, chosen
   here without saying how: a value in `[min, max]`, and, when `max < min`
   makes the factor `max - min + 1` zero or negative, a value in
   `[max + 1, min]` (exactly `min` when `max == min - 1`).
   */
  method RandomInt(min: int, max: int) returns (r: int)
    ensures min <= max ==> min <= r <= max
    ensures max < min ==> max < r <= min
  {
    if min <= max {
      r :| min <= r <= max;
    } else {
      r :| max < r <= min;
    }
  }

  /** `value` clamped into `[min, max]` (only used by a proposal the search has switched off). */
  function Clop(value: int, min: int, max: int): (r: int)
    ensures min <= max ==> min <= r <= max
    ensures min <= value <= max ==> r == value
    ensures value < min ==> r == min
    ensures min <= max < value ==> r == max
    ensures max < min ==> r == min
  {
    Max(min, Min(max, value))
  }

  /**
   Bresenham's traversal from `(i1, j1)` to `(i2, j2)`, setting every visited
   cell that lies inside the grid to 1. It stops once `(i2, j2)` has been
   visited; the cells it visits are `LinePath`, in that order.
   */
  method DrawLine(img: array2<int>, i1: int, j1: int, i2: int, j2: int)
    modifies img
    ensures Cells(img) == Paint(old(Cells(img)), LinePath(Point(i1, j1), Point(i2, j2)))
  {
    ghost var a, b := Point(i1, j1), Point(i2, j2);
    ghost var before := Cells(img);
    var currentI := i1;
    var currentJ := j1;

    var di: int := Abs(i2 - i1);
    var dj: int := Abs(j2 - j1);

    var stepI := if i1 < i2 then 1 else -1;
    var stepJ := if j1 < j2 then 1 else -1;

    var err := dj - di;

    var height := img.Length0;
    if height == 0 {
      return;
    }
    var width := img.Length1;

    ghost var k: nat := 0;
    ghost var seen: set<Point> := {};
    while true
      invariant k <= Span(a, b)
      invariant Cursor(currentI, currentJ, err) == Trace(a, b, k)
      invariant seen == Visited(a, b, k)
      invariant forall r, c :: 0 <= r < height && 0 <= c < width ==>
        img[r, c] == if Point(r, c) in seen then 1 else old(img[r, c])
      decreases Span(a, b) - k
    {
      TraceEnd(a, b, k);
      if 0 <= currentI < height && 0 <= currentJ < width {
        img[currentI, currentJ] := 1;
      }
      seen := seen + {Point(currentI, currentJ)};
      assert seen == Visited(a, b, k + 1);

      if currentI == i2 && currentJ == j2 {
        break;
      }

      TraceNext(a, b, k);
      var e2 := 2 * err;

      if e2 >= -di {
        err := err - di;
        currentJ := currentJ + stepJ;
      }

      if e2 <= dj {
        err := err + dj;
        currentI := currentI + stepI;
      }
      k := k + 1;
    }
    VisitedPath(a, b);
    PaintedCells(img, before, seen, LinePath(a, b));
  }

  /**
   A fresh `height` by `width` grid of zeros with the polyline through
   `answer` drawn onto it, segment after segment.
   */
  method CreateImageFromAnswer(answer: seq<Point>, width: nat, height: nat) returns (img: array2<int>)
    ensures fresh(img)
    ensures img.Length0 == height && img.Length1 == width
    ensures Cells(img) == Render(answer, height, width)
  {
    img := new int[height, width]((_, _) => 0);
    BlankShape(height, width);
    SameImage(Cells(img), Blank(height, width));
    var i := 0;
    while i < |answer| - 1
      invariant 0 <= i && (i == 0 || i < |answer|)
      invariant img.Length0 == height && img.Length1 == width
      invariant Cells(img) == Segments(answer, i, height, width)
    {
      var p1 := answer[i];
      var p2 := answer[i + 1];
      DrawLine(img, p1.i, p1.j, p2.i, p2.j);
      i := i + 1;
    }
  }

  /**
   The number of cells of the top-left `height` by `width` block on which
   the two grids agree: at most `width * height`, and equal to it exactly
   when they agree everywhere. The source divides it by `width * height`.
   */
  method EvalSimilarity(img1: array2<int>, img2: array2<int>, width: nat, height: nat) returns (similarity: nat)
    requires height <= img1.Length0 && width <= img1.Length1
    requires height <= img2.Length0 && width <= img2.Length1
    ensures similarity == Matches(Cells(img1), Cells(img2), height, width)
    ensures similarity <= width * height
    ensures similarity == width * height <==>
      forall i, j :: 0 <= i < height && 0 <= j < width ==> img1[i, j] == img2[i, j]
  {
    ghost var g1, g2 := Cells(img1), Cells(img2);
    similarity := 0;
    for i := 0 to height
      invariant similarity == Matches(g1, g2, i, width)
    {
      for j := 0 to width
        invariant similarity == Matches(g1, g2, i, width) + RowMatches(g1, g2, i, j)
      {
        if img1[i, j] == img2[i, j] {
          similarity := similarity + 1;
        }
      }
    }
    MatchesAll(g1, g2, height, width);
    assert height * width == width * height;
    AgreeCells(img1, img2, height, width);
  }

  /** `n` random points, each a row in `[0, height - 1]` and a column in `[0, width - 1]`. */
  method RandomAnswer(n: nat, height: nat, width: nat) returns (answer: seq<Point>)
    ensures |answer| == n && AllPlaced(answer, height, width)
  {
    answer := [];
    for i := 0 to n
      invariant |answer| == i && AllPlaced(answer, height, width)
    {
      var pi := RandomInt(0, height - 1);
      var pj := RandomInt(0, width - 1);
      answer := answer + [Point(pi, pj)];
    }
  }

  /**
   One round of the search: move a random point to a random place, render
   the moved answer, and keep it (with its image) only when it matches
   `frontImg` on strictly more cells than the current answer does. `m` is
   the move that was drawn.
   */
  method Round(answer: seq<Point>, img: array2<int>, frontImg: array2<int>, width: nat, height: nat)
    returns (next: seq<Point>, nextImg: array2<int>, ghost m: Move)
    requires |answer| >= 1
    requires img.Length0 == height && img.Length1 == width
    requires Cells(img) == Render(answer, height, width)
    requires height <= frontImg.Length0 && width <= frontImg.Length1
    ensures m.idx < |answer| && Placed(m.to, height, width)
    ensures next == Improve(answer, m, Cells(frontImg), height, width)
    ensures fresh(nextImg) || nextImg == img
    ensures nextImg.Length0 == height && nextImg.Length1 == width
    ensures Cells(nextImg) == Render(next, height, width)
  {
    var idx := RandomInt(0, |answer| - 1);
    var oldPoint := answer[idx];
    var ni := RandomInt(0, height - 1);
    var nj := RandomInt(0, width - 1);
    var newPoint := Point(ni, nj);
    m := Move(idx, newPoint);
    next := answer[idx := newPoint];
    var newImg := CreateImageFromAnswer(next, width, height);
    var similarity := EvalSimilarity(newImg, frontImg, width, height);
    var current := EvalSimilarity(img, frontImg, width, height);
    ImproveBy(answer, m, Cells(frontImg), height, width, similarity, current);
    if similarity > current {
      nextImg := newImg;
    } else {
      next := next[idx := oldPoint];
      Restore(answer, idx, newPoint);
      nextImg := img;
    }
  }

  /**
   The greedy search: `n` random points, then `iterations` rounds that each
   move one random point to a random place and keep the move only when the
   image of the answer matches `frontImg` on strictly more cells. `initial`
   and `moves` record the random draws; the answer is `Run` of them.
   */
  method Solve(width: nat, height: nat, frontImg: array2<int>, n: nat, iterations: nat)
    returns (answer: seq<Point>, ghost initial: seq<Point>, ghost moves: seq<Move>)
    requires n >= 1
    requires height <= frontImg.Length0 && width <= frontImg.Length1
    ensures |initial| == n && AllPlaced(initial, height, width)
    ensures |moves| == iterations && ValidMoves(moves, n, height, width)
    ensures answer == Run(initial, moves, Cells(frontImg), height, width)
    ensures |answer| == n && AllPlaced(answer, height, width)
    ensures height > 0 && width > 0 ==>
      forall k :: 0 <= k < n ==> 0 <= answer[k].i < height && 0 <= answer[k].j < width
    ensures Score(initial, Cells(frontImg), height, width) <= Score(answer, Cells(frontImg), height, width)
  {
    ghost var target := Cells(frontImg);
    answer := RandomAnswer(n, height, width);
    initial := answer;
    var img := CreateImageFromAnswer(answer, width, height);

    moves := [];
    for iter := 0 to iterations
      invariant |moves| == iter && ValidMoves(moves, n, height, width)
      invariant answer == Run(initial, moves, target, height, width)
      invariant img.Length0 == height && img.Length1 == width
      invariant Cells(img) == Render(answer, height, width)
    {
      ghost var m;
      answer, img, m := Round(answer, img, frontImg, width, height);
      RunExtend(initial, moves, m, target, height, width);
      moves := moves + [m];
    }
    RunSummary(initial, moves, target, height, width);
  }
}
