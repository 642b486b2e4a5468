/**
 Images as values: a grid is a sequence of rows. Painting a path sets its
 in-bounds cells to 1 (what `drawLine` does to its grid), rendering a
 polyline paints its segments in turn onto a zero grid (what
 `createImageFromAnswer` builds), and the match count is the number of cells
 where two grids agree (the numerator of `evalSimilarity`).
 */
module Raster {
  import opened Line

  type Image = seq<seq<int>>

  /** `g` has exactly `h` rows of `w` cells. */
  ghost predicate Shaped(g: Image, h: nat, w: nat) {
    |g| == h && forall r :: 0 <= r < h ==> |g[r]| == w
  }

  /** Every cell of `g` is 0 or 1. */
  ghost predicate Binary(g: Image) {
    forall r, c :: 0 <= r < |g| && 0 <= c < |g[r]| ==> g[r][c] == 0 || g[r][c] == 1
  }

  /** The contents of a two-dimensional array, row by row. */
  ghost function Cells(a: array2<int>): (g: Image)
    reads a
    ensures Shaped(g, a.Length0, a.Length1)
    ensures forall r, c :: 0 <= r < a.Length0 && 0 <= c < a.Length1 ==> g[r][c] == a[r, c]
  {
    seq(a.Length0, r requires 0 <= r < a.Length0 reads a =>
      seq(a.Length1, c requires 0 <= c < a.Length1 reads a => a[r, c]))
  }

  /** Two grids of the same shape that agree on every cell are equal. */
  lemma SameImage(g: Image, g': Image)
    requires |g| == |g'|
    requires forall r :: 0 <= r < |g| ==> |g[r]| == |g'[r]|
    requires forall r, c :: 0 <= r < |g| && 0 <= c < |g[r]| ==> g[r][c] == g'[r][c]
    ensures g == g'
  {
    forall r | 0 <= r < |g|
      ensures g[r] == g'[r]
    {
    }
  }

  /** The `h` by `w` grid of zeros. */
  function Blank(h: nat, w: nat): Image {
    seq(h, r => seq(w, c => 0))
  }

  /** A fresh grid is `h` by `w` and all zeros. */
  lemma BlankShape(h: nat, w: nat)
    ensures Shaped(Blank(h, w), h, w) && Binary(Blank(h, w))
    ensures forall r, c :: 0 <= r < h && 0 <= c < w ==> Blank(h, w)[r][c] == 0
  {
  }

  /** The grid after a traversal of `path`: each in-bounds cell on the path becomes 1. */
  function Paint(g: Image, path: seq<Point>): Image {
    seq(|g|, r requires 0 <= r < |g| =>
      seq(|g[r]|, c requires 0 <= c < |g[r]| => if Point(r, c) in path then 1 else g[r][c]))
  }

  /**
   Painting keeps the shape of the grid, writes only the value 1, and only to
   the in-bounds cells that lie on the path; every other cell keeps its value.
   */
  lemma PaintFrame(g: Image, path: seq<Point>, r: int, c: int)
    requires 0 <= r < |g| && 0 <= c < |g[r]|
    ensures |Paint(g, path)| == |g| && |Paint(g, path)[r]| == |g[r]|
    ensures Point(r, c) in path ==> Paint(g, path)[r][c] == 1
    ensures Point(r, c) !in path ==> Paint(g, path)[r][c] == g[r][c]
  {
  }

  /** An empty grid has no cell to paint. */
  lemma PaintEmpty(path: seq<Point>)
    ensures Paint([], path) == []
  {
  }

  /** Painting the same path twice gives the grid painted once. */
  lemma PaintIdempotent(g: Image, path: seq<Point>)
    ensures Paint(Paint(g, path), path) == Paint(g, path)
  {
    SameImage(Paint(Paint(g, path), path), Paint(g, path));
  }

  /** Painting keeps an `h` by `w` grid of 0s and 1s an `h` by `w` grid of 0s and 1s. */
  lemma PaintBinary(g: Image, path: seq<Point>, h: nat, w: nat)
    requires Shaped(g, h, w) && Binary(g)
    ensures Shaped(Paint(g, path), h, w) && Binary(Paint(g, path))
  {
  }

  /**
   An array whose cells are those of `before` set to 1 on the cells of
   `path` holds `Paint(before, path)`.
   */
  lemma PaintedCells(a: array2<int>, before: Image, cells: set<Point>, path: seq<Point>)
    requires Shaped(before, a.Length0, a.Length1)
    requires forall p :: p in cells <==> p in path
    requires forall r, c :: 0 <= r < a.Length0 && 0 <= c < a.Length1 ==>
      a[r, c] == if Point(r, c) in cells then 1 else before[r][c]
    ensures Cells(a) == Paint(before, path)
  {
    SameImage(Cells(a), Paint(before, path));
  }

  /**
   The grid after drawing the first `k` segments of the polyline `pts` onto a
   zero grid, segment `s` joining `pts[s]` to `pts[s + 1]`.
   */
  function Segments(pts: seq<Point>, k: nat, h: nat, w: nat): Image
    requires k == 0 || k < |pts|
  {
    if k == 0 then Blank(h, w)
    else Paint(Segments(pts, k - 1, h, w), LinePath(pts[k - 1], pts[k]))
  }

  /** The number of segments of the polyline through `pts`. */
  function SegmentCount(pts: seq<Point>): nat {
    if |pts| < 2 then 0 else |pts| - 1
  }

  /** The `h` by `w` image of the polyline through `pts`. */
  function Render(pts: seq<Point>, h: nat, w: nat): Image {
    Segments(pts, SegmentCount(pts), h, w)
  }

  lemma {:induction false} SegmentsShape(pts: seq<Point>, k: nat, h: nat, w: nat)
    requires k == 0 || k < |pts|
    ensures Shaped(Segments(pts, k, h, w), h, w) && Binary(Segments(pts, k, h, w))
  {
    if k == 0 {
      BlankShape(h, w);
    } else {
      SegmentsShape(pts, k - 1, h, w);
      PaintBinary(Segments(pts, k - 1, h, w), LinePath(pts[k - 1], pts[k]), h, w);
    }
  }

  /** The image of a polyline is an `h` by `w` grid of 0s and 1s. */
  lemma RenderShape(pts: seq<Point>, h: nat, w: nat)
    ensures Shaped(Render(pts, h, w), h, w) && Binary(Render(pts, h, w))
  {
    SegmentsShape(pts, SegmentCount(pts), h, w);
  }

  /** Cell `p` lies on segment `s` of the polyline through `pts`. */
  ghost predicate OnSegment(pts: seq<Point>, s: nat, p: Point)
    requires s + 1 < |pts|
  {
    p in LinePath(pts[s], pts[s + 1])
  }

  lemma {:induction false} SegmentsCoverage(pts: seq<Point>, k: nat, h: nat, w: nat, r: int, c: int)
    requires k == 0 || k < |pts|
    requires 0 <= r < h && 0 <= c < w
    ensures Shaped(Segments(pts, k, h, w), h, w)
    ensures Segments(pts, k, h, w)[r][c] == 1 <==> exists s :: 0 <= s < k && OnSegment(pts, s, Point(r, c))
    ensures Segments(pts, k, h, w)[r][c] == 0 <==> !exists s :: 0 <= s < k && OnSegment(pts, s, Point(r, c))
  {
    SegmentsShape(pts, k, h, w);
    if k > 0 {
      SegmentsCoverage(pts, k - 1, h, w, r, c);
      var p := Point(r, c);
      if p in LinePath(pts[k - 1], pts[k]) {
        assert OnSegment(pts, k - 1, p);
      } else {
        if exists s :: 0 <= s < k && OnSegment(pts, s, p) {
          var s :| 0 <= s < k && OnSegment(pts, s, p);
          assert s < k - 1;
        }
      }
    }
  }

  /**
   A cell of the rendered polyline is 1 exactly when it lies on one of the
   segments, and 0 otherwise; with fewer than two points every cell is 0.
   */
  lemma RenderCoverage(pts: seq<Point>, h: nat, w: nat, r: int, c: int)
    requires 0 <= r < h && 0 <= c < w
    ensures Shaped(Render(pts, h, w), h, w)
    ensures Render(pts, h, w)[r][c] == 1 <==>
      exists s :: 0 <= s < SegmentCount(pts) && OnSegment(pts, s, Point(r, c))
    ensures Render(pts, h, w)[r][c] == 0 <==>
      !exists s :: 0 <= s < SegmentCount(pts) && OnSegment(pts, s, Point(r, c))
    ensures |pts| < 2 ==> Render(pts, h, w)[r][c] == 0
  {
    SegmentsCoverage(pts, SegmentCount(pts), h, w, r, c);
  }

  /** The cell of `g` at row `r`, column `c`; a cell outside the grid reads as 0. */
  function CellAt(g: Image, r: int, c: int): int {
    if 0 <= r < |g| && 0 <= c < |g[r]| then g[r][c] else 0
  }

  /** The number of the first `w` cells of row `r` on which `a` and `b` agree. */
  function RowMatches(a: Image, b: Image, r: int, w: nat): (m: nat)
    ensures m <= w
  {
    if w == 0 then 0
    else RowMatches(a, b, r, w - 1) + (if CellAt(a, r, w - 1) == CellAt(b, r, w - 1) then 1 else 0)
  }

  /** The number of cells of the top-left `h` by `w` block on which `a` and `b` agree. */
  function Matches(a: Image, b: Image, h: nat, w: nat): nat {
    if h == 0 then 0 else Matches(a, b, h - 1, w) + RowMatches(a, b, h - 1, w)
  }

  /** `a` and `b` agree on every cell of the top-left `h` by `w` block. */
  ghost predicate Agree(a: Image, b: Image, h: nat, w: nat) {
    forall r, c :: 0 <= r < h && 0 <= c < w ==> CellAt(a, r, c) == CellAt(b, r, c)
  }

  /** Two arrays agree on their top-left `h` by `w` block exactly when their contents do. */
  lemma AgreeCells(a: array2<int>, b: array2<int>, h: nat, w: nat)
    requires h <= a.Length0 && w <= a.Length1
    requires h <= b.Length0 && w <= b.Length1
    ensures Agree(Cells(a), Cells(b), h, w) <==>
      forall i, j :: 0 <= i < h && 0 <= j < w ==> a[i, j] == b[i, j]
  {
    var g, g' := Cells(a), Cells(b);
    if forall i, j :: 0 <= i < h && 0 <= j < w ==> a[i, j] == b[i, j] {
      forall r, c | 0 <= r < h && 0 <= c < w
        ensures CellAt(g, r, c) == CellAt(g', r, c)
      {
      }
    }
    if Agree(g, g', h, w) {
      forall i, j | 0 <= i < h && 0 <= j < w
        ensures a[i, j] == b[i, j]
      {
        assert CellAt(g, i, j) == CellAt(g', i, j);
      }
    }
  }

  lemma {:induction false} RowMatchesAll(a: Image, b: Image, r: int, w: nat)
    ensures RowMatches(a, b, r, w) == w <==> forall c :: 0 <= c < w ==> CellAt(a, r, c) == CellAt(b, r, c)
  {
    if w > 0 {
      RowMatchesAll(a, b, r, w - 1);
    }
  }

  /**
   The match count never exceeds the number of cells, and reaches it exactly
   when the two grids agree everywhere.
   */
  lemma {:induction false} MatchesAll(a: Image, b: Image, h: nat, w: nat)
    ensures Matches(a, b, h, w) <= h * w
    ensures Matches(a, b, h, w) == h * w <==> Agree(a, b, h, w)
  {
    if h > 0 {
      MatchesAll(a, b, h - 1, w);
      RowMatchesAll(a, b, h - 1, w);
      assert (h - 1) * w + w == h * w;
      var r := h - 1;
      if Agree(a, b, h, w) {
        assert forall c :: 0 <= c < w ==> CellAt(a, r, c) == CellAt(b, r, c);
      }
      if Matches(a, b, h, w) == h * w {
        assert Matches(a, b, h - 1, w) <= (h - 1) * w;
        assert RowMatches(a, b, h - 1, w) == w;
        assert Matches(a, b, h - 1, w) == (h - 1) * w;
      }
    }
  }

  /**
   Comparing two match ratios over the same positive number of cells is
   comparing the match counts.
   */
  lemma RatioOrder(m: nat, m': nat, cells: nat)
    requires cells > 0
    ensures (m as real / cells as real > m' as real / cells as real) <==> m > m'
  {
    var d := cells as real;
    assert m as real / d * d == m as real;
    assert m' as real / d * d == m' as real;
  }
}
