/** The swipe-down-to-dismiss gesture on the poem card: `touchStartY` (a ref),
    the drag offset `swipeY` and the `isSwiping` flag. Pixel coordinates are
    integers. */
module Gesture {

  /** A drag longer than this many pixels dismisses the poem on release. */
  const DismissThresholdPx := 100

  datatype Gesture = Gesture(startY: int, offset: int, swiping: bool)

  /** Before any touch: the ref starts at 0, nothing dragged, not swiping. */
  const Idle := Gesture(0, 0, false)

  /** The drag offset is never negative: only downward drags are recorded. */
  predicate Valid(g: Gesture) {
    g.offset >= 0
  }

  /** A touch starts: remember where, and start swiping. The offset of an
      earlier drag is left as it was. */
  function Start(g: Gesture, y: int): (r: Gesture)
    ensures r.swiping && r.startY == y
    ensures r.offset == g.offset
  {
    g.(startY := y, swiping := true)
  }

  /** A touch moves: while swiping, a point below the start becomes the new
      offset; a point at or above the start changes nothing. */
  function Move(g: Gesture, y: int): (r: Gesture)
    ensures Valid(g) ==> Valid(r)
    ensures !g.swiping || y <= g.startY ==> r == g
    ensures g.swiping && y > g.startY ==> r.offset == y - g.startY > 0
    ensures r.startY == g.startY && r.swiping == g.swiping
  {
    if !g.swiping then g
    else
      var delta := y - g.startY;
      if delta > 0 then g.(offset := delta) else g
  }

  /** Drop the drag: no offset, not swiping. Shared by release and close. */
  function Reset(g: Gesture): (r: Gesture)
    ensures Valid(r) && !r.swiping && r.offset == 0
    ensures r.startY == g.startY
  {
    g.(offset := 0, swiping := false)
  }

  /** The gesture after the touch ends, and whether the poem is dismissed. */
  datatype Release = Release(gesture: Gesture, dismiss: bool)

  /** A touch ends: a drag past the threshold commits the dismissal; in every
      case the offset returns to 0 and swiping stops. */
  function End(g: Gesture): (r: Release)
    ensures r.dismiss <==> g.offset > DismissThresholdPx
    ensures r.gesture == Reset(g)
  {
    Release(Reset(g), g.offset > DismissThresholdPx)
  }

  /** The state after a sequence of touch moves, applied in order. */
  function Moves(g: Gesture, ys: seq<int>): (r: Gesture)
    ensures Valid(g) ==> Valid(r)
    ensures r.startY == g.startY && r.swiping == g.swiping
    ensures !g.swiping ==> r == g
    decreases |ys|
  {
    if ys == [] then g else Moves(Move(g, ys[0]), ys[1..])
  }

  /** The reference answer for a drag: the distance below `startY` of the last
      point that lay below it, or `prior` when none did. */
  function LastDownward(startY: int, ys: seq<int>, prior: int): int
    decreases |ys|
  {
    if ys == [] then prior
    else if ys[|ys| - 1] > startY then ys[|ys| - 1] - startY
    else LastDownward(startY, ys[..|ys| - 1], prior)
  }

  /** While swiping, the offset after a series of moves is the last downward
      distance: upward points are ignored, not subtracted. */
  lemma {:induction false} MovesKeepLastDownward(g: Gesture, ys: seq<int>)
    requires g.swiping
    ensures Moves(g, ys).offset == LastDownward(g.startY, ys, g.offset)
    decreases |ys|
  {
    if ys != [] {
      var front := ys[..|ys| - 1];
      MovesSnoc(g, front, ys[|ys| - 1]);
      assert front + [ys[|ys| - 1]] == ys;
      MovesKeepLastDownward(g, front);
    }
  }

  /** Applying one more move after a series is the same as the longer series. */
  lemma {:induction false} MovesSnoc(g: Gesture, ys: seq<int>, y: int)
    ensures Moves(g, ys + [y]) == Move(Moves(g, ys), y)
    decreases |ys|
  {
    if ys == [] {
      assert ys + [y] == [y];
    } else {
      assert (ys + [y])[1..] == ys[1..] + [y];
      MovesSnoc(Move(g, ys[0]), ys[1..], y);
    }
  }

  /** Dragging 40 px down, then 10 px above the start, then 90 px down leaves an
      offset of 90: the upward point is ignored. */
  lemma DragExample(startY: int)
    ensures Moves(Start(Idle, startY), [startY + 40, startY - 10, startY + 90]).offset == 90
  {
    MovesKeepLastDownward(Start(Idle, startY), [startY + 40, startY - 10, startY + 90]);
  }
}
