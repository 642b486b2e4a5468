# String-art solver: a Dafny model of `app/utils.ts`

The string-art solver places `n` nails on a `height` by `width` grid, and
the thread joins the nails in order. The search runs a fixed number of
rounds. Each round moves one nail to a random cell. It keeps the move only
when the drawn thread then matches a binary target image (the "front
image") on strictly more cells. This project models the solver's core and
proves what it does:

- `drawLine` traverses a segment with Bresenham's algorithm and sets each
  visited in-bounds cell to 1.
- `createImageFromAnswer` draws the polyline through the nails onto a
  fresh grid of zeros.
- `evalSimilarity` counts the cells on which two grids agree.
- `solve` is the greedy search. It starts from random nails. Each round
  moves one random nail to a random cell and keeps the move only when the
  score rises strictly; otherwise it puts the nail back.

The project is split into four modules:

- `Line` (`line.dfy`) holds the traversal as values. `Trace` is the loop
  state after `k` iterations, `LinePath` the cells visited in order, and
  `Walk` the same path defined by recursion on the loop state. The loop
  invariant `OnTrack` bounds both axes and fixes the error term.
- `Raster` (`raster.dfy`) holds grids as `seq<seq<int>>`:
  - `Paint` is a grid after one traversal.
  - `Render` is the image of a polyline.
  - `Matches` is the agreement count.
  - `Cells` reads the contents of an `array2<int>`.
- `Climb` (`climb.dfy`) holds the search as values. `Improve` is one
  accept/reject round and `Run` a whole sequence of rounds.
- `Utils` (`utils.dfy`) holds the source's operations as methods over
  `array2<int>` grids. Each method is proved against the value-level
  definitions above.

The grids of `app/utils.ts` hold 0s and 1s: drawing sets a cell to 1, so
overlapping strands do not add up. A candidate is scored only against the
front image, by counting the cells on which the two grids agree. Every
round redraws the whole candidate image and recomputes both scores from
scratch. The model does all of this the same way.

## Model

| member | source | states |
|---|---|---|
| Line.Start | app/utils.ts:47-58 | The loop state before the first iteration: the cursor on `(i1, j1)` and the error term `dj - di`. |
| Line.Step | app/utils.ts:80-92 | One iteration after the end test. Both tests read the same `e2 = 2 * err`: `e2 >= -di` takes a column step and subtracts `di`, and `e2 <= dj` takes a row step and adds `dj`. |
| Line.Trace | app/utils.ts:64-93 | The loop state after `k` iterations; it stays put once the cursor is on `(i2, j2)`, where the loop breaks. |
| Line.LinePath | app/utils.ts:64-93 | The cells the loop visits, in order: the cursor's cell after each of the `Span(a, b) + 1` iterations. |
| Raster.Paint | app/utils.ts:66-73 | The grid after one traversal: each cell of the grid that lies on the path becomes 1. |
| Raster.Segments | app/utils.ts:101-109 | The grid after the first `k` iterations of the drawing loop: a zero grid with the segments `pts[s]` to `pts[s + 1]`, `s < k`, painted in order. |
| Raster.Render | app/utils.ts:96-112 | The image of an answer: all `length - 1` segments drawn, and a zero grid when there are fewer than two points. |
| Raster.RowMatches | app/utils.ts:122-126 | The inner loop: how many of the first `w` cells of row `r` agree; at most `w`. |
| Raster.Matches | app/utils.ts:120-127 | The outer loop: how many cells of the top-left `h` by `w` block agree. |
| Climb.Score | app/utils.ts:160-162 | The count `evalSimilarity` compares: how many cells of the answer's image match the target. |
| Climb.Improve | app/utils.ts:156-167 | One round on values: the moved answer when its score is strictly higher, and the answer as it was otherwise; the length is kept. |
| Climb.Run | app/utils.ts:146-168 | The answer after applying the moves in order, one round each; the length is kept. |
| Line.StepAdvances | app/utils.ts:80-92 | One iteration of the loop keeps the loop invariant. It moves each coordinate by at most one toward the end point and takes at least one step, so the remaining distance falls strictly. The loop terminates and never overshoots. |
| Line.TraceEnd | app/utils.ts:64-93 | The loop state is on the end point after exactly `Span(a, b)` iterations (the longer axis) and after no earlier iteration. The loop stops when the segment is complete. |
| Line.WalkLength | app/utils.ts:50-58 | The traversal visits one cell per unit of the longer axis plus one, because the error term always lets the major axis advance. |
| Line.PathIsWalk | app/utils.ts:64-93 | The cells visited after each iteration are the cells of the recursive walk from the first end point: two independent definitions of the same path agree. |
| Line.PathEnds | app/utils.ts:47-48 | The first cell visited is `(i1, j1)` and the last is `(i2, j2)`. |
| Line.ZeroLength | app/utils.ts:76-78 | A segment from a point to itself visits exactly that one cell. |
| Line.PathShape | app/utils.ts:80-92 | Every visited cell lies in the bounding box of the two end points. Consecutive cells are 8-neighbours, and each step goes toward the end point. |
| Line.WalkDescends | app/utils.ts:80-92 | The distance to the end point falls strictly along the path. |
| Line.NoRevisit | app/utils.ts:64-93 | No cell is visited twice. |
| Line.VisitedPath | app/utils.ts:64-93 | The set of cells the loop has visited when it stops is exactly the set of cells of the path. |
| Raster.PaintFrame | app/utils.ts:66-73 | Drawing a segment keeps the grid's shape. It writes only the value 1, and only on in-bounds cells of the path; every other cell keeps its value. |
| Raster.PaintEmpty | app/utils.ts:60-61 | A grid with no rows is left as it is. |
| Raster.PaintIdempotent | app/utils.ts:72 | Drawing the same segment twice gives the grid drawn once. |
| Raster.PaintBinary | app/utils.ts:72 | Drawing keeps an `h` by `w` grid of 0s and 1s an `h` by `w` grid of 0s and 1s. |
| Raster.BlankShape | app/utils.ts:101-103 | The fresh grid has `height` rows of `width` cells, all 0. |
| Raster.RenderShape | app/utils.ts:96-112 | The image of any answer is a `height` by `width` grid of 0s and 1s. |
| Raster.RenderCoverage | app/utils.ts:105-109 | A cell of the image is 1 exactly when it lies on a segment between consecutive points, and 0 exactly when it does not. With fewer than two points, every cell is 0. |
| Raster.MatchesAll | app/utils.ts:120-127 | The match count is at most `h * w`. It equals `h * w` exactly when the two grids agree on every cell of the block. |
| Raster.RatioOrder | app/utils.ts:128 | With a positive number of cells, comparing two similarity ratios is the same as comparing the two match counts. |
| Climb.ImproveSpec | app/utils.ts:156-167 | A round changes at most the chosen point. It keeps the move exactly when the score rises strictly, so a tie or a worse score restores the answer. The score never falls. |
| Climb.RunExtend | app/utils.ts:146-168 | Running one more move applies one more round to the result of the earlier moves. |
| Climb.RunMonotone | app/utils.ts:146-168 | The score after any prefix of the moves is at most the score after all of them. |
| Climb.RunPlaced | app/utils.ts:141 | Every point of the answer stays a cell that `randomInt(0, height - 1)` and `randomInt(0, width - 1)` can produce. |
| Climb.RunKeepsUnmoved | app/utils.ts:156 | A point that no move targets keeps its initial place for the whole run. |
| Climb.RunSummary | app/utils.ts:146-170 | After a whole run, all points are placeable and lie in bounds when the grid is not empty. The final score is at least the initial score. |
| Utils.RandomInt | app/utils.ts:31-33 | The result is in `[min, max]`. When `max < min`, it is in `[max + 1, min]`, and exactly `min` for `max == min - 1`. |
| Utils.Clop | app/utils.ts:35-37 | The value clamped into `[min, max]`: the value itself inside the range, `min` below it, `max` above it, and `min` when `max < min`. |
| Utils.DrawLine | app/utils.ts:40-94 | The array afterwards is the grid before with exactly the in-bounds cells of `LinePath` set to 1. |
| Utils.CreateImageFromAnswer | app/utils.ts:96-112 | A newly allocated `height` by `width` array whose contents are `Render(answer)`: every segment between consecutive points drawn onto zeros. |
| Utils.EvalSimilarity | app/utils.ts:114-129 | The number of agreeing cells of the `height` by `width` block. It is at most `width * height`, and equal to it exactly when the arrays agree on every cell. |
| Utils.RandomAnswer | app/utils.ts:138-142 | `n` points, each one `randomInt` can place. |
| Utils.Round | app/utils.ts:147-167 | One round: the answer becomes `Improve` of the answer for the drawn move, and the kept image is the image of the new answer: either the newly allocated candidate image or the image passed in. |
| Utils.Solve | app/utils.ts:131-171 | The answer is `Run` of the initial points and the drawn moves. It has `n` points, in bounds when the grid is not empty, and scores at least as high as the initial points. |

## Left out

- `dither` (`app/utils.ts:1-29`): floating-point Floyd–Steinberg dithering of RGBA pixel data. It prepares the target image and is not part of the search.
- Randomness: `Math.random` is a choice the model does not fix. `RandomInt` may return any value the formula can produce, and the distribution is not modelled. `Solve` returns the drawn points and moves as ghost outputs so that its result can be stated.
- The iteration count: the source runs 10000 rounds. `Solve` takes the count as the parameter `iterations`.
- The float division in `evalSimilarity` (`app/utils.ts:128`): `EvalSimilarity` returns the count of agreeing cells. `RatioOrder` shows that with `width * height > 0` the source's comparison of ratios is the comparison of counts. With `width * height == 0`, the source compares `NaN > NaN` and the model compares `0 > 0`, and both are false.
- `backImg` (`app/utils.ts:135`): the parameter is never read, so `Solve` does not take it.
- The commented-out neighbour move (`app/utils.ts:151-152`) is not a move of the search. `Clop`, which only that move would use, is modelled on its own.
- Solve: requires `n >= 1`. With `n == 0`, the source writes index 0 of an empty array and returns a one-element array holding `undefined`, which has no counterpart here. `Solve` and `Round` also require `frontImg` to cover the `height` by `width` block, for the same reason as `EvalSimilarity`.
- EvalSimilarity: requires both arrays to cover the `height` by `width` block. The source throws on a missing row and compares `undefined` on a missing column.
- Grids are rectangular `array2<int>`. The source's `number[][]` may be ragged: `drawLine` takes the width of row 0 for every row, and `number[][]` rows may alias one another. Neither ragged rows nor aliasing is modelled.
- Numbers are unbounded integers. The source's coordinates are JavaScript doubles that hold small integers, so no rounding occurs at grid sizes.
- `Utils.RandomAnswer` and `Utils.Round` are the initialisation loop and the body of the search loop of `solve`, written as methods of their own. `Solve` calls them in the source's order.
