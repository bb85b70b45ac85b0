/** What the user sees of the undo history: the canvas together with its
    snapshot stacks, changed a whole stroke or a whole clear at a time.

    A stroke saves the canvas as it was BEFORE the stroke (the save happens on
    the stroke's first frame, src/components/AirWriter.tsx:163-165), a clear
    saves the canvas AFTER clearing (lines 78-85), and undo treats the newest
    snapshot as the current canvas and repaints the one below it (lines
    65-76). Mixing the two conventions makes undo go back two steps. `Board`
    models the code as written; the `Corrected` members save before every
    change and undo to the newest snapshot. */
module StrokeHistory {
  import opened Common
  import opened CanvasHistory

  datatype Board<S> = Board(stacks: Stacks<S>, canvas: S)

  /** A finished stroke that turned the canvas into `after`. */
  function DrawStroke<S>(b: Board<S>, after: S): (r: Board<S>)
    ensures r.canvas == after && r.stacks.redo == []
    ensures |b.stacks.history| < HistoryLimit ==> r.stacks.history == b.stacks.history + [b.canvas]
    ensures Bounded(b.stacks) ==> Bounded(r.stacks)
    // the snapshot kept is the canvas from BEFORE the stroke
    ensures |r.stacks.history| > 0 && Last(r.stacks.history) == b.canvas
  {
    Board(SaveToHistory(b.stacks, b.canvas), after)
  }

  /** The Clear button as written: clear, then save the blank canvas. */
  function ClearBoard<S>(b: Board<S>, blank: S): (r: Board<S>)
    ensures r.canvas == blank && r.stacks.redo == []
    ensures |b.stacks.history| < HistoryLimit ==> r.stacks.history == b.stacks.history + [blank]
    ensures Bounded(b.stacks) ==> Bounded(r.stacks)
    // the snapshot kept is the canvas from AFTER the clear
    ensures |r.stacks.history| > 0 && Last(r.stacks.history) == r.canvas
  {
    Board(ClearCanvas(b.stacks, blank), blank)
  }

  /** The Undo button as written. */
  function UndoBoard<S>(b: Board<S>): (r: Board<S>)
    ensures |b.stacks.history| <= 1 ==> r == b
    // the newest snapshot moves onto the redo stack
    ensures |b.stacks.history| > 1 ==>
              && b.stacks.history == r.stacks.history + [Last(b.stacks.history)]
              && r.stacks.redo == b.stacks.redo + [Last(b.stacks.history)]
    ensures Bounded(b.stacks) ==> Bounded(r.stacks)
    // the canvas becomes the snapshot BELOW the newest one
    ensures |b.stacks.history| > 1 ==> r.canvas == b.stacks.history[|b.stacks.history| - 2]
  {
    var u := Undo(b.stacks);
    Board(u.stacks, u.restored.GetOr(b.canvas))
  }

  /** As written, undoing a stroke repaints the snapshot saved before the
      PREVIOUS stroke, so the stroke before the last one disappears too; and
      with only one snapshot the stroke cannot be undone at all. */
  lemma {:induction false} UndoStrokeAsWritten<S>(b: Board<S>, after: S)
    requires Bounded(b.stacks)
    ensures |b.stacks.history| == 0 ==> UndoBoard(DrawStroke(b, after)).canvas == after
    ensures 1 <= |b.stacks.history| ==>
              UndoBoard(DrawStroke(b, after)).canvas == Last(b.stacks.history)
  {
    if 1 <= |b.stacks.history| {
      UndoAfterSave(b.stacks, b.canvas);
    }
  }

  /** Two strokes on a fresh canvas, then one undo: the canvas comes back
      empty instead of showing the first stroke. */
  lemma UndoRemovesTwoStrokes()
    ensures var b0: Board<seq<int>> := Board(Stacks([], []), []);
            var b2 := DrawStroke(DrawStroke(b0, [1]), [1, 2]);
            b2.canvas == [1, 2] && UndoBoard(b2).canvas == [] && UndoBoard(b2).canvas != [1]
  {
    var b0: Board<seq<int>> := Board(Stacks([], []), []);
    var b1 := DrawStroke(b0, [1]);
    UndoStrokeAsWritten(b1, [1, 2]);
  }

  /** As written, undoing a clear that follows a stroke returns to the canvas
      before that stroke: the stroke is lost along with the clear. */
  lemma UndoClearAsWritten<S>(b: Board<S>, after: S, blank: S)
    requires Bounded(b.stacks)
    ensures UndoBoard(ClearBoard(DrawStroke(b, after), blank)).canvas == b.canvas
  {
    var b1 := DrawStroke(b, after);
    UndoAfterClear(b1.stacks, blank);
  }

  /** Clear saves before clearing, like a stroke does. */
  function ClearBoardCorrected<S>(b: Board<S>, blank: S): (r: Board<S>)
    ensures r.canvas == blank && r.stacks == SaveToHistory(b.stacks, b.canvas)
  {
    Board(SaveToHistory(b.stacks, b.canvas), blank)
  }

  /** Undo repaints the newest snapshot (the canvas before the last change)
      and keeps the undone canvas on the redo stack. */
  function UndoBoardCorrected<S>(b: Board<S>): (r: Board<S>)
    ensures |b.stacks.history| == 0 ==> r == b
    ensures |b.stacks.history| > 0 ==>
              && r.canvas == Last(b.stacks.history)
              && b.stacks.history == r.stacks.history + [r.canvas]
              && r.stacks.redo == b.stacks.redo + [b.canvas]
  {
    var h := b.stacks.history;
    if |h| == 0 then b
    else
      assert h == h[..|h| - 1] + [Last(h)];
      Board(Stacks(h[..|h| - 1], b.stacks.redo + [b.canvas]), Last(h))
  }

  /** With the correction every undo takes back exactly the last stroke or
      clear, whatever came before it. */
  lemma {:induction false} UndoRestoresPreviousCanvas<S>(b: Board<S>, after: S)
    ensures UndoBoardCorrected(DrawStroke(b, after)).canvas == b.canvas
    ensures UndoBoardCorrected(ClearBoardCorrected(b, after)).canvas == b.canvas
    ensures |b.stacks.history| < HistoryLimit ==>
              UndoBoardCorrected(DrawStroke(b, after)).stacks.history == b.stacks.history
  {
    var s := SaveToHistory(b.stacks, b.canvas);
    assert |s.history| > 0 && Last(s.history) == b.canvas;
    if |b.stacks.history| < HistoryLimit {
      assert s.history == b.stacks.history + [b.canvas];
    }
  }

  /** The same two strokes as in `UndoRemovesTwoStrokes`, corrected: one undo
      leaves the first stroke, a second returns to the empty canvas. */
  lemma CorrectedUndoRemovesOneStroke()
    ensures var b0: Board<seq<int>> := Board(Stacks([], []), []);
            var b2 := DrawStroke(DrawStroke(b0, [1]), [1, 2]);
            UndoBoardCorrected(b2).canvas == [1] &&
            UndoBoardCorrected(UndoBoardCorrected(b2)).canvas == []
  {
    var b0: Board<seq<int>> := Board(Stacks([], []), []);
    var b1 := DrawStroke(b0, [1]);
    assert b1.canvas == [1] && b1.stacks.history == [[]];
    UndoRestoresPreviousCanvas(b1, [1, 2]);
    var u := UndoBoardCorrected(DrawStroke(b1, [1, 2]));
    assert u.canvas == [1] && u.stacks.history == [[]];
  }
}
