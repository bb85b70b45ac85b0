/** The undo history of the air-writing canvas (`saveToHistory`, `undo` and
    `clearCanvas` in src/components/AirWriter.tsx). Snapshots are opaque: the
    history is generic in the snapshot type `S`. */
module CanvasHistory {
  import opened Common

  /** At most this many snapshots are kept; the oldest is dropped first. */
  const HistoryLimit: nat := 20

  /** The snapshot stack (oldest first) and the stack of undone snapshots. */
  datatype Stacks<S> = Stacks(history: seq<S>, redo: seq<S>)

  function Last<S>(s: seq<S>): S
    requires |s| > 0
  {
    s[|s| - 1]
  }

  /** A history that respects the size bound. */
  predicate Bounded<S>(st: Stacks<S>) {
    |st.history| <= HistoryLimit
  }

  /** saveToHistory: push the snapshot, drop the oldest beyond the limit, and
      discard the redo stack. */
  function SaveToHistory<S>(st: Stacks<S>, snapshot: S): (r: Stacks<S>)
    ensures r.redo == []
    ensures |r.history| > 0 && Last(r.history) == snapshot
    // only the newest entries survive, in order
    ensures |r.history| <= |st.history| + 1
    ensures r.history == (st.history + [snapshot])[|st.history| + 1 - |r.history|..]
    // nothing is dropped below the limit, and exactly one entry at it
    ensures |st.history| < HistoryLimit ==> |r.history| == |st.history| + 1
    ensures |st.history| >= HistoryLimit ==> |r.history| == |st.history|
    ensures Bounded(st) ==> Bounded(r)
  {
    var pushed := st.history + [snapshot];
    Stacks(if |pushed| > HistoryLimit then pushed[1..] else pushed, [])
  }

  /** What `undo` leaves: the stacks and the snapshot painted back, if any. */
  datatype UndoResult<S> = UndoResult(stacks: Stacks<S>, restored: Option<S>)

  /** undo: with more than one snapshot, move the newest onto the redo stack
      and repaint the one below it; otherwise do nothing. */
  function Undo<S>(st: Stacks<S>): (r: UndoResult<S>)
    ensures |st.history| <= 1 ==> r == UndoResult(st, None)
    ensures |st.history| > 1 ==>
              && st.history == r.stacks.history + [Last(st.history)]
              && r.stacks.redo == st.redo + [Last(st.history)]
              && r.restored == Some(Last(r.stacks.history))
    // snapshots move between the stacks, none is lost or invented
    ensures multiset(r.stacks.history) + multiset(r.stacks.redo)
         == multiset(st.history) + multiset(st.redo)
    ensures |r.stacks.history| >= 1 <==> |st.history| >= 1
    ensures Bounded(st) ==> Bounded(r.stacks)
  {
    if |st.history| > 1 then
      var h := st.history[..|st.history| - 1];
      assert st.history == h + [Last(st.history)];
      UndoResult(Stacks(h, st.redo + [Last(st.history)]), Some(Last(h)))
    else UndoResult(st, None)
  }

  /** clearCanvas: the blank canvas becomes the newest snapshot. */
  function ClearCanvas<S>(st: Stacks<S>, blank: S): (r: Stacks<S>)
    ensures |r.history| > 0 && Last(r.history) == blank && r.redo == []
    // the drawing before the clear stays in the history below the blank canvas
    ensures |st.history| < HistoryLimit ==> r.history == st.history + [blank]
    ensures |r.history| <= |st.history| + 1
    ensures r.history[..|r.history| - 1] == st.history[|st.history| + 1 - |r.history|..]
    ensures Bounded(st) ==> Bounded(r)
  {
    SaveToHistory(st, blank)
  }

  /** Undo right after a clear repaints the newest snapshot from before it:
      clearing can be taken back. */
  lemma UndoAfterClear<S>(st: Stacks<S>, blank: S)
    requires 1 <= |st.history| <= HistoryLimit
    ensures Undo(ClearCanvas(st, blank)).restored == Some(Last(st.history))
    ensures |st.history| < HistoryLimit ==> Undo(ClearCanvas(st, blank)).stacks.history == st.history
  {
    UndoAfterSave(st, blank);
  }

  /** Undo right after a save returns to the canvas before it: the saved
      snapshot goes to the redo stack and the previous newest is repainted.
      At the limit the oldest snapshot has been dropped for good. */
  lemma UndoAfterSave<S>(st: Stacks<S>, snapshot: S)
    requires 1 <= |st.history| <= HistoryLimit
    ensures Undo(SaveToHistory(st, snapshot)).restored == Some(Last(st.history))
    ensures Undo(SaveToHistory(st, snapshot)).stacks.redo == [snapshot]
    ensures |st.history| < HistoryLimit ==>
              Undo(SaveToHistory(st, snapshot)).stacks.history == st.history
    ensures |st.history| == HistoryLimit ==>
              Undo(SaveToHistory(st, snapshot)).stacks.history == st.history[1..]
  {
    var kept := if |st.history| < HistoryLimit then st.history else st.history[1..];
    assert SaveToHistory(st, snapshot) == Stacks(kept + [snapshot], []);
    UndoOfPush(kept, snapshot, []);
  }

  /** Undo takes back exactly the newest snapshot when one lies below it. */
  lemma UndoOfPush<S>(h: seq<S>, x: S, redo: seq<S>)
    requires |h| >= 1
    ensures Undo(Stacks(h + [x], redo)) == UndoResult(Stacks(h, redo + [x]), Some(Last(h)))
  {
    assert (h + [x])[..|h|] == h;
  }

  /** The user-visible history operations. */
  datatype HistoryOp<S> = SaveOp(snapshot: S) | UndoOp | ClearOp(blank: S)

  function Apply<S>(st: Stacks<S>, op: HistoryOp<S>): Stacks<S> {
    match op
    case SaveOp(s) => SaveToHistory(st, s)
    case UndoOp => Undo(st).stacks
    case ClearOp(b) => ClearCanvas(st, b)
  }

  function ApplyAll<S>(st: Stacks<S>, ops: seq<HistoryOp<S>>): (r: Stacks<S>)
    ensures Bounded(st) ==> Bounded(r)
    decreases |ops|
  {
    if ops == [] then st else ApplyAll(Apply(st, ops[0]), ops[1..])
  }

  /** Once something has been saved, no sequence of saves, undos and clears
      empties the history: undo always leaves the oldest snapshot in place. */
  lemma {:induction false} HistoryNeverEmpties<S>(st: Stacks<S>, ops: seq<HistoryOp<S>>)
    requires |st.history| >= 1
    ensures |ApplyAll(st, ops).history| >= 1
    decreases |ops|
  {
    if ops != [] {
      var next := Apply(st, ops[0]);
      assert |next.history| >= 1;
      HistoryNeverEmpties(next, ops[1..]);
    }
  }

  /** Undo needs two snapshots: after a single save into an empty history
      there is nothing to undo, so the first stroke of a session cannot be
      taken back. */
  lemma FirstSaveCannotBeUndone<S>(snapshot: S)
    ensures Undo(SaveToHistory(Stacks([], []), snapshot)).restored.None?
    ensures Undo(SaveToHistory(Stacks([], []), snapshot)).stacks.history == [snapshot]
  {
  }
}
