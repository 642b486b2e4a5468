/**
 The greedy hill-climbing of `solve`, stated on values: one move replaces one
 point of the answer, and is kept only when the rendered image matches the
 front image on strictly more cells; a run is a sequence of such moves.
 */
module Climb {
  import opened Line
  import opened Raster

  /** One proposal of the search: put point `idx` of the answer at `to`. */
  datatype Move = Move(idx: nat, to: Point)

  /**
   The points `randomInt(0, height - 1)`, `randomInt(0, width - 1)` can yield:
   in-bounds cells, and row or column 0 when that dimension is 0.
   */
  predicate Placed(p: Point, h: nat, w: nat) {
    0 <= p.i < Max(h, 1) && 0 <= p.j < Max(w, 1)
  }

  predicate AllPlaced(pts: seq<Point>, h: nat, w: nat) {
    forall k :: 0 <= k < |pts| ==> Placed(pts[k], h, w)
  }

  /** The moves can be applied to an answer of `n` points, and only propose placeable points. */
  predicate ValidMoves(moves: seq<Move>, n: nat, h: nat, w: nat) {
    forall k :: 0 <= k < |moves| ==> moves[k].idx < n && Placed(moves[k].to, h, w)
  }

  /** How many cells of the rendered answer match the target. */
  function Score(pts: seq<Point>, target: Image, h: nat, w: nat): nat {
    Matches(Render(pts, h, w), target, h, w)
  }

  /**
   One iteration: the answer with point `m.idx` moved to `m.to` if that
   matches the target strictly better, and the answer as it was otherwise.
   */
  function Improve(pts: seq<Point>, m: Move, target: Image, h: nat, w: nat): (next: seq<Point>)
    requires m.idx < |pts|
    ensures |next| == |pts|
  {
    var candidate := pts[m.idx := m.to];
    if Score(candidate, target, h, w) > Score(pts, target, h, w) then candidate else pts
  }

  /**
   An iteration changes at most the chosen point; it keeps the move exactly
   when the score strictly rises, so a tie or a worse score leaves the answer
   as it was, and the score never falls.
   */
  lemma ImproveSpec(pts: seq<Point>, m: Move, target: Image, h: nat, w: nat)
    requires m.idx < |pts|
    ensures forall k :: 0 <= k < |pts| && k != m.idx ==> Improve(pts, m, target, h, w)[k] == pts[k]
    ensures Score(pts[m.idx := m.to], target, h, w) > Score(pts, target, h, w) ==>
      Improve(pts, m, target, h, w) == pts[m.idx := m.to]
    ensures Score(pts[m.idx := m.to], target, h, w) <= Score(pts, target, h, w) ==>
      Improve(pts, m, target, h, w) == pts
    ensures Score(Improve(pts, m, target, h, w), target, h, w) >= Score(pts, target, h, w)
  {
  }

  /** The answer after applying `moves` in order to `pts`. */
  function Run(pts: seq<Point>, moves: seq<Move>, target: Image, h: nat, w: nat): (out: seq<Point>)
    requires ValidMoves(moves, |pts|, h, w)
    ensures |out| == |pts|
  {
    if moves == [] then pts
    else Improve(Run(pts, moves[..|moves| - 1], target, h, w), moves[|moves| - 1], target, h, w)
  }

  /** Running one more move applies one more iteration. */
  lemma RunExtend(pts: seq<Point>, moves: seq<Move>, m: Move, target: Image, h: nat, w: nat)
    requires ValidMoves(moves, |pts|, h, w)
    requires m.idx < |pts| && Placed(m.to, h, w)
    ensures ValidMoves(moves + [m], |pts|, h, w)
    ensures Run(pts, moves + [m], target, h, w) == Improve(Run(pts, moves, target, h, w), m, target, h, w)
  {
    assert (moves + [m])[..|moves|] == moves;
  }

  /** The score after every prefix of a run is at most the score after the whole run. */
  lemma {:induction false} RunMonotone(pts: seq<Point>, moves: seq<Move>, k: nat, target: Image, h: nat, w: nat)
    requires ValidMoves(moves, |pts|, h, w)
    requires k <= |moves|
    ensures Score(Run(pts, moves[..k], target, h, w), target, h, w) <= Score(Run(pts, moves, target, h, w), target, h, w)
    decreases |moves|
  {
    if k < |moves| {
      var front := moves[..|moves| - 1];
      assert front[..k] == moves[..k];
      RunMonotone(pts, front, k, target, h, w);
      ImproveSpec(Run(pts, front, target, h, w), moves[|moves| - 1], target, h, w);
    } else {
      assert moves[..k] == moves;
    }
  }

  /** A run only ever places points that the moves propose, or that were there to begin with. */
  lemma {:induction false} RunPlaced(pts: seq<Point>, moves: seq<Move>, target: Image, h: nat, w: nat)
    requires ValidMoves(moves, |pts|, h, w)
    requires AllPlaced(pts, h, w)
    ensures AllPlaced(Run(pts, moves, target, h, w), h, w)
  {
    if moves != [] {
      var front := moves[..|moves| - 1];
      RunPlaced(pts, front, target, h, w);
    }
  }

  /** A point that no move proposes to replace keeps its place for the whole run. */
  lemma {:induction false} RunKeepsUnmoved(pts: seq<Point>, moves: seq<Move>, k: nat, target: Image, h: nat, w: nat)
    requires ValidMoves(moves, |pts|, h, w)
    requires k < |pts| && forall t :: 0 <= t < |moves| ==> moves[t].idx != k
    ensures Run(pts, moves, target, h, w)[k] == pts[k]
  {
    if moves != [] {
      var front := moves[..|moves| - 1];
      RunKeepsUnmoved(pts, front, k, target, h, w);
      ImproveSpec(Run(pts, front, target, h, w), moves[|moves| - 1], target, h, w);
    }
  }

  /**
   After a whole run the answer still holds only placeable points, which are
   in-bounds cells when the grid is not empty, and it matches the target on
   at least as many cells as the initial answer.
   */
  lemma RunSummary(pts: seq<Point>, moves: seq<Move>, target: Image, h: nat, w: nat)
    requires ValidMoves(moves, |pts|, h, w) && AllPlaced(pts, h, w)
    ensures AllPlaced(Run(pts, moves, target, h, w), h, w)
    ensures h > 0 && w > 0 ==> forall k :: 0 <= k < |pts| ==>
      0 <= Run(pts, moves, target, h, w)[k].i < h && 0 <= Run(pts, moves, target, h, w)[k].j < w
    ensures Score(pts, target, h, w) <= Score(Run(pts, moves, target, h, w), target, h, w)
  {
    RunPlaced(pts, moves, target, h, w);
    assert moves[..0] == [];
    RunMonotone(pts, moves, 0, target, h, w);
  }

  /** The comparison `Improve` makes, for scores already computed. */
  lemma ImproveBy(pts: seq<Point>, m: Move, target: Image, h: nat, w: nat, after: nat, before: nat)
    requires m.idx < |pts|
    requires after == Score(pts[m.idx := m.to], target, h, w)
    requires before == Score(pts, target, h, w)
    ensures after > before ==> Improve(pts, m, target, h, w) == pts[m.idx := m.to]
    ensures after <= before ==> Improve(pts, m, target, h, w) == pts
  {
  }

  /** Putting the old point back after a move gives the answer as it was. */
  lemma Restore(pts: seq<Point>, idx: nat, p: Point)
    requires idx < |pts|
    ensures pts[idx := p][idx := pts[idx]] == pts
  {
  }
}
