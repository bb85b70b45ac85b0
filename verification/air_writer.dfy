/** One camera frame of the air-writing screen (`handleResults` in
    src/components/AirWriter.tsx): classify the first hand, continue or start
    a stroke, erase, and fire the colour and save commands behind their
    cooldowns. Pixels are not modelled; the frame's effects on the canvas are
    returned as a list. A frame's time `now` is a `Date.now()` reading, in
    milliseconds since the epoch. */
module AirWriter {
  import opened Common
  import opened Gesture
  import opened CanvasHistory

  /** COLORS, by name; the swatch values are presentation only. */
  const ColorNames: seq<string> := ["White", "Red", "Green", "Blue", "Yellow", "Cyan", "Magenta"]

  /** The colour a fresh screen starts with (green). */
  const InitialColor: nat := 2

  const CanvasWidth: real := 1280.0
  const CanvasHeight: real := 720.0

  /** Half the side of the square the eraser clears. */
  const EraserHalfSide: real := 40.0

  /** Minimum milliseconds between two colour changes, and between two saves. */
  const ColorCooldownMs: int := 1000
  const SaveCooldownMs: int := 2000

  /** The commands behind a cooldown (the keys of `cooldownRef`). */
  datatype Command = ColorCommand | SaveCommand

  /** When a command last fired; a command that never fired counts as 0. */
  function LastFired(cooldowns: map<Command, int>, c: Command): int {
    if c in cooldowns then cooldowns[c] else 0
  }

  datatype Gate = Gate(fired: bool, cooldowns: map<Command, int>)

  /** Fire `c` at `now` if strictly more than `cooldownMs` has passed since it
      last fired, and remember the time it fired. */
  function TryFire(cooldowns: map<Command, int>, c: Command, now: int, cooldownMs: int): (g: Gate)
    ensures g.fired <==> now - LastFired(cooldowns, c) > cooldownMs
    ensures g.fired ==> LastFired(g.cooldowns, c) == now
    ensures !g.fired ==> g.cooldowns == cooldowns
    // the other command's timer is never touched
    ensures forall d :: d != c ==> LastFired(g.cooldowns, d) == LastFired(cooldowns, d)
  {
    if now - LastFired(cooldowns, c) > cooldownMs then Gate(true, cooldowns[c := now])
    else Gate(false, cooldowns)
  }

  /** The times at which a command held through the given frames fires. */
  function Firings(cooldowns: map<Command, int>, c: Command, cooldownMs: int, times: seq<int>): (fired: seq<int>)
    ensures |fired| <= |times|
    decreases |times|
  {
    if times == [] then []
    else
      var g := TryFire(cooldowns, c, times[0], cooldownMs);
      (if g.fired then [times[0]] else []) + Firings(g.cooldowns, c, cooldownMs, times[1..])
  }

  /** Every firing comes strictly more than the cooldown after the previous
      one, and the first strictly more than the cooldown after the last
      recorded firing — however often the gesture is seen. */
  lemma {:induction false} FiringsAreSpaced(cooldowns: map<Command, int>, c: Command, cooldownMs: int, times: seq<int>)
    ensures var fired := Firings(cooldowns, c, cooldownMs, times);
            (|fired| > 0 ==> fired[0] - LastFired(cooldowns, c) > cooldownMs) &&
            (forall i :: 0 < i < |fired| ==> fired[i] - fired[i - 1] > cooldownMs)
    decreases |times|
  {
    if times != [] {
      var g := TryFire(cooldowns, c, times[0], cooldownMs);
      var rest := Firings(g.cooldowns, c, cooldownMs, times[1..]);
      FiringsAreSpaced(g.cooldowns, c, cooldownMs, times[1..]);
      var fired := Firings(cooldowns, c, cooldownMs, times);
      if g.fired {
        assert fired == [times[0]] + rest;
        assert forall i :: 0 < i < |fired| ==> fired[i] == rest[i - 1];
      } else {
        assert fired == rest;
      }
    }
  }

  /** Every frame whose time is strictly more than the cooldown after the
      last firing does fire: the gate never swallows a due command. */
  lemma {:induction false} DueFrameFires(cooldowns: map<Command, int>, c: Command, cooldownMs: int, times: seq<int>)
    requires |times| > 0 && times[0] - LastFired(cooldowns, c) > cooldownMs
    ensures |Firings(cooldowns, c, cooldownMs, times)| > 0
    ensures Firings(cooldowns, c, cooldownMs, times)[0] == times[0]
  {
    var g := TryFire(cooldowns, c, times[0], cooldownMs);
    assert g.fired;
    assert Firings(cooldowns, c, cooldownMs, times)
        == [times[0]] + Firings(g.cooldowns, c, cooldownMs, times[1..]);
  }

  /** The next colour in the palette, wrapping after the last. */
  function NextColor(i: nat): (j: nat)
    ensures j < |ColorNames|
    ensures i + 1 < |ColorNames| ==> j == i + 1
    ensures i + 1 == |ColorNames| ==> j == 0
  {
    (i + 1) % |ColorNames|
  }

  /** How many colour changes lead from palette position `i` to `k`. */
  function Steps(i: nat, k: nat): (n: nat)
    requires i < |ColorNames| && k < |ColorNames|
    ensures n < |ColorNames|
  {
    if k >= i then k - i else k + |ColorNames| - i
  }

  /** Seven colour changes bring any palette position back to itself, and
      every colour is reached within six changes. */
  lemma {:induction false} ColorCycle(i: nat)
    requires i < |ColorNames|
    ensures Iterate(i, |ColorNames|) == i
    ensures forall k :: 0 <= k < |ColorNames| ==> Iterate(i, Steps(i, k)) == k
  {
    forall k | 0 <= k < |ColorNames|
      ensures Iterate(i, Steps(i, k)) == k
    {
      IterateFormula(i, Steps(i, k));
    }
    IterateFormula(i, |ColorNames|);
  }

  /** The colour after `n` changes starting at `i`. */
  function Iterate(i: nat, n: nat): nat
    decreases n
  {
    if n == 0 then i else NextColor(Iterate(i, n - 1))
  }

  lemma {:induction false} IterateFormula(i: nat, n: nat)
    requires i < |ColorNames|
    ensures Iterate(i, n) == (i + n) % |ColorNames|
    decreases n
  {
    if n > 0 {
      IterateFormula(i, n - 1);
    }
  }

  /** A point of the detector's coordinates on the canvas, mirrored so the
      drawing follows the hand like a mirror image. */
  function ToCanvas(p: Point): (q: Point)
    ensures 0.0 <= p.x <= 1.0 ==> 0.0 <= q.x <= CanvasWidth
    ensures 0.0 <= p.y <= 1.0 ==> 0.0 <= q.y <= CanvasHeight
  {
    Point((1.0 - p.x) * CanvasWidth, p.y * CanvasHeight)
  }

  /** What a frame does to the canvas and the rest of the screen. */
  datatype Effect =
    | Segment(from: Point, to: Point)   // a line of the current stroke
    | EraseSquare(left: real, top: real, side: real)  // a square cleared around the palm
    | ColorChanged(index: nat)          // the colour notification
    | ImageSaved                        // the download and its notification

  /** The screen's state between frames. `lastPoint` is the canvas end of the
      stroke in progress, if any. */
  datatype Writer<S> = Writer(
    mode: Mode,
    colorIdx: nat,
    lastPoint: Option<Point>,
    cooldowns: map<Command, int>,
    stacks: Stacks<S>)

  /** The screen as it mounts: idle, green, no stroke, no timers, no history. */
  function InitWriter<S>(): (w: Writer<S>)
    ensures WriterInv(w) && ColorNames[w.colorIdx] == "Green"
    ensures w.mode == Idle && w.lastPoint.None? && w.stacks.history == [] && w.stacks.redo == []
    ensures LastFired(w.cooldowns, ColorCommand) == 0 && LastFired(w.cooldowns, SaveCommand) == 0
  {
    Writer(Idle, InitialColor, None, map[], Stacks([], []))
  }

  /** Colour in the palette and history within its bound. */
  predicate WriterInv<S>(w: Writer<S>) {
    w.colorIdx < |ColorNames| && Bounded(w.stacks)
  }

  datatype Frame<S> = Frame(writer: Writer<S>, effects: seq<Effect>)

  /** handleResults for one frame: `hands` are the detected hands (the first is
      used), `now` the frame's clock and `canvas` the snapshot a new stroke
      saves. A first hand with fewer than 21 landmarks has no result. */
  function HandleResults<S>(w: Writer<S>, hands: seq<seq<Point>>, now: int, canvas: S): (r: Option<Frame<S>>)
    ensures r.None? <==> |hands| > 0 && |hands[0]| < LandmarkCount
    ensures r.Some? && hands == [] ==> r.value == Frame(w.(mode := Idle, lastPoint := None), [])
    ensures r.Some? && hands != [] ==> r.value.writer.mode == DetectGesture(hands[0]).value.mode
    // a stroke is in progress exactly while the hand draws
    ensures r.Some? ==> (r.value.writer.lastPoint.Some? <==> r.value.writer.mode == Draw)
    ensures r.Some? && r.value.writer.mode == Draw ==>
              r.value.writer.lastPoint == Some(ToCanvas(DetectGesture(hands[0]).value.pos.value))
    // a segment joins the previous point to the new one; a stroke's first frame saves instead
    ensures r.Some? && r.value.writer.mode == Draw && w.lastPoint.Some? ==>
              r.value.effects == [Segment(w.lastPoint.value, r.value.writer.lastPoint.value)] &&
              r.value.writer.stacks == w.stacks
    ensures r.Some? && r.value.writer.mode == Draw && w.lastPoint.None? ==>
              r.value.effects == [] && r.value.writer.stacks == SaveToHistory(w.stacks, canvas)
    ensures r.Some? && r.value.writer.mode != Draw ==> r.value.writer.stacks == w.stacks
    // the eraser clears around the palm
    ensures r.Some? && r.value.writer.mode == Erase ==>
              |r.value.effects| == 1 && r.value.effects[0].EraseSquare? &&
              var e := r.value.effects[0]; var c := ToCanvas(Palm(hands[0]));
              e.side == 2.0 * EraserHalfSide && e.left + EraserHalfSide == c.x && e.top + EraserHalfSide == c.y
    // colour and save fire only when their cooldown has run out
    ensures r.Some? ==> (ColorChanged(NextColor(w.colorIdx)) in r.value.effects <==>
              r.value.writer.mode == Color && now - LastFired(w.cooldowns, ColorCommand) > ColorCooldownMs)
    ensures r.Some? ==> (ImageSaved in r.value.effects <==>
              r.value.writer.mode == Save && now - LastFired(w.cooldowns, SaveCommand) > SaveCooldownMs)
    // a firing advances the colour and records `now` for its own command;
    // every other frame leaves the colour and both timers alone
    ensures r.Some? && r.value.writer.mode == Color ==>
              var g := TryFire(w.cooldowns, ColorCommand, now, ColorCooldownMs);
              r.value.writer.cooldowns == g.cooldowns &&
              r.value.writer.colorIdx == (if g.fired then NextColor(w.colorIdx) else w.colorIdx)
    ensures r.Some? && r.value.writer.mode == Save ==>
              r.value.writer.cooldowns == TryFire(w.cooldowns, SaveCommand, now, SaveCooldownMs).cooldowns &&
              r.value.writer.colorIdx == w.colorIdx
    ensures r.Some? && r.value.writer.mode != Color && r.value.writer.mode != Save ==>
              r.value.writer.cooldowns == w.cooldowns && r.value.writer.colorIdx == w.colorIdx
    ensures r.Some? && (r.value.writer.mode == Pause || r.value.writer.mode == Idle) ==> r.value.effects == []
    ensures r.Some? && WriterInv(w) ==> WriterInv(r.value.writer)
  {
    if hands == [] then Some(Frame(w.(mode := Idle, lastPoint := None), []))
    else match DetectGesture(hands[0])
      case None => None
      case Some(g) =>
        var w1 := w.(mode := g.mode);
        match g.pos
        case None => Some(Frame(w1.(lastPoint := None), []))
        case Some(p) =>
          var q := ToCanvas(p);
          match g.mode
          case Draw =>
            if w.lastPoint.Some? then Some(Frame(w1.(lastPoint := Some(q)), [Segment(w.lastPoint.value, q)]))
            else Some(Frame(w1.(lastPoint := Some(q), stacks := SaveToHistory(w.stacks, canvas)), []))
          case Erase =>
            var eraser := EraseSquare(q.x - EraserHalfSide, q.y - EraserHalfSide, 2.0 * EraserHalfSide);
            Some(Frame(w1.(lastPoint := None), [eraser]))
          case Color =>
            var gate := TryFire(w.cooldowns, ColorCommand, now, ColorCooldownMs);
            if gate.fired then
              Some(Frame(w1.(lastPoint := None, colorIdx := NextColor(w.colorIdx), cooldowns := gate.cooldowns),
                         [ColorChanged(NextColor(w.colorIdx))]))
            else Some(Frame(w1.(lastPoint := None), []))
          case Save =>
            var gate := TryFire(w.cooldowns, SaveCommand, now, SaveCooldownMs);
            if gate.fired then Some(Frame(w1.(lastPoint := None, cooldowns := gate.cooldowns), [ImageSaved]))
            else Some(Frame(w1.(lastPoint := None), []))
          case _ => Some(Frame(w1.(lastPoint := None), []))
  }

  /** One camera frame as delivered to the handler. */
  datatype HandFrame<S> = HandFrame(hands: seq<seq<Point>>, now: int, canvas: S)

  /** The handler applied to consecutive frames; the effects in frame order. */
  function RunFrames<S>(w: Writer<S>, fs: seq<HandFrame<S>>): (r: Option<Frame<S>>)
    ensures r.Some? && WriterInv(w) ==> WriterInv(r.value.writer)
    ensures fs == [] ==> r == Some(Frame(w, []))
    decreases |fs|
  {
    if fs == [] then Some(Frame(w, []))
    else match HandleResults(w, fs[0].hands, fs[0].now, fs[0].canvas)
      case None => None
      case Some(f1) =>
        match RunFrames(f1.writer, fs[1..])
        case None => None
        case Some(f2) => Some(Frame(f2.writer, f1.effects + f2.effects))
  }

  /** A frame whose first hand shows the index finger alone. */
  predicate DrawFrame<S>(f: HandFrame<S>) {
    |f.hands| > 0 && |f.hands[0]| >= LandmarkCount && DetectGesture(f.hands[0]).value.mode == Draw
  }

  /** Segments laid end to end, the first starting at `p`. */
  predicate ChainedFrom(p: Point, effects: seq<Effect>)
    decreases |effects|
  {
    effects == [] || (effects[0].Segment? && effects[0].from == p && ChainedFrom(effects[0].to, effects[1..]))
  }

  /** Drawing on from a stroke in progress adds one segment per frame, each
      starting where the previous one ended, and saves nothing. */
  lemma {:induction false} StrokeContinues<S>(w: Writer<S>, fs: seq<HandFrame<S>>)
    requires w.lastPoint.Some?
    requires forall i :: 0 <= i < |fs| ==> DrawFrame(fs[i])
    ensures RunFrames(w, fs).Some?
    ensures |RunFrames(w, fs).value.effects| == |fs|
    ensures ChainedFrom(w.lastPoint.value, RunFrames(w, fs).value.effects)
    ensures RunFrames(w, fs).value.writer.stacks == w.stacks
    ensures RunFrames(w, fs).value.writer.lastPoint.Some?
    decreases |fs|
  {
    if fs != [] {
      var f1 := HandleResults(w, fs[0].hands, fs[0].now, fs[0].canvas);
      assert DrawFrame(fs[0]);
      assert f1.Some? && f1.value.writer.mode == Draw;
      var w1 := f1.value.writer;
      assert f1.value.effects == [Segment(w.lastPoint.value, w1.lastPoint.value)];
      assert w1.stacks == w.stacks;
      var rest := fs[1..];
      assert forall i :: 0 <= i < |rest| ==> DrawFrame(rest[i]) by {
        forall i | 0 <= i < |rest| ensures DrawFrame(rest[i]) {
          assert rest[i] == fs[i + 1];
        }
      }
      StrokeContinues(w1, rest);
      var r2 := RunFrames(w1, rest).value;
      var effs := f1.value.effects + r2.effects;
      assert RunFrames(w, fs) == Some(Frame(r2.writer, effs));
      assert effs[1..] == r2.effects;
    }
  }

  /** A whole stroke, from a frame without a stroke in progress: its first
      frame saves the canvas to the history once and draws nothing, and every
      later frame adds a segment continuing the previous one. */
  lemma {:induction false} StrokeSavesOnce<S>(w: Writer<S>, fs: seq<HandFrame<S>>)
    requires w.lastPoint.None? && |fs| > 0 && DrawFrame(fs[0])
    requires forall i :: 1 <= i < |fs| ==> DrawFrame(fs[i])
    ensures RunFrames(w, fs).Some?
    ensures |RunFrames(w, fs).value.effects| + 1 == |fs|
    ensures RunFrames(w, fs).value.writer.stacks == SaveToHistory(w.stacks, fs[0].canvas)
    ensures ChainedFrom(ToCanvas(DetectGesture(fs[0].hands[0]).value.pos.value), RunFrames(w, fs).value.effects)
  {
    var f1 := HandleResults(w, fs[0].hands, fs[0].now, fs[0].canvas);
    assert f1.Some? && f1.value.writer.mode == Draw && f1.value.effects == [];
    var w1 := f1.value.writer;
    assert w1.stacks == SaveToHistory(w.stacks, fs[0].canvas);
    assert w1.lastPoint == Some(ToCanvas(DetectGesture(fs[0].hands[0]).value.pos.value));
    var rest := fs[1..];
    assert forall i :: 0 <= i < |rest| ==> DrawFrame(rest[i]) by {
      forall i | 0 <= i < |rest| ensures DrawFrame(rest[i]) {
        assert rest[i] == fs[i + 1];
      }
    }
    StrokeContinues(w1, rest);
    var r2 := RunFrames(w1, rest).value;
    assert RunFrames(w, fs) == Some(Frame(r2.writer, [] + r2.effects));
    assert [] + r2.effects == r2.effects;
  }

  // ---------------------------------------------------------------------
  // Commands held over many frames

  /** The frames' clock readings, in order. */
  function Times<S>(fs: seq<HandFrame<S>>): (ts: seq<int>)
    ensures |ts| == |fs| && forall i :: 0 <= i < |fs| ==> ts[i] == fs[i].now
  {
    seq(|fs|, i requires 0 <= i < |fs| => fs[i].now)
  }

  /** A frame whose first hand makes the gesture `m`. */
  predicate GestureFrame<S>(f: HandFrame<S>, m: Mode) {
    |f.hands| > 0 && |f.hands[0]| >= LandmarkCount && DetectGesture(f.hands[0]).value.mode == m
  }

  /** The colour notifications of `n` successive changes from position `i`. */
  function ColorChanges(i: nat, n: nat): (es: seq<Effect>)
    ensures |es| == n && forall k :: 0 <= k < n ==> es[k] == ColorChanged(Iterate(i, k + 1))
    decreases n
  {
    if n == 0 then []
    else
      var rest := ColorChanges(NextColor(i), n - 1);
      IterateShift(i, n);
      [ColorChanged(NextColor(i))] + rest
  }

  /** Changing colour first and then `n` more times is `n + 1` changes. */
  lemma {:induction false} IterateShift(i: nat, n: nat)
    ensures forall k :: 0 <= k <= n ==> Iterate(NextColor(i), k) == Iterate(i, k + 1)
    decreases n
  {
    if n > 0 {
      IterateShift(i, n - 1);
      assert Iterate(NextColor(i), n) == NextColor(Iterate(NextColor(i), n - 1));
    }
  }

  /** One frame of the run: its handler result followed by the rest. */
  lemma RunFramesCons<S>(w: Writer<S>, fs: seq<HandFrame<S>>, f1: Frame<S>, f2: Frame<S>)
    requires |fs| > 0 && HandleResults(w, fs[0].hands, fs[0].now, fs[0].canvas) == Some(f1)
    requires RunFrames(f1.writer, fs[1..]) == Some(f2)
    ensures RunFrames(w, fs) == Some(Frame(f2.writer, f1.effects + f2.effects))
  {
  }

  /** A peace-sign frame consults only the colour gate. */
  lemma ColorFrameStep<S>(w: Writer<S>, f: HandFrame<S>) returns (f1: Frame<S>)
    requires GestureFrame(f, Color)
    ensures HandleResults(w, f.hands, f.now, f.canvas) == Some(f1)
    ensures var g := TryFire(w.cooldowns, ColorCommand, f.now, ColorCooldownMs);
            && f1.effects == (if g.fired then [ColorChanged(NextColor(w.colorIdx))] else [])
            && f1.writer.cooldowns == g.cooldowns
            && f1.writer.colorIdx == (if g.fired then NextColor(w.colorIdx) else w.colorIdx)
            && f1.writer.stacks == w.stacks
  {
    f1 := HandleResults(w, f.hands, f.now, f.canvas).value;
  }

  /** A thumbs-up frame consults only the save gate. */
  lemma SaveFrameStep<S>(w: Writer<S>, f: HandFrame<S>) returns (f1: Frame<S>)
    requires GestureFrame(f, Save)
    ensures HandleResults(w, f.hands, f.now, f.canvas) == Some(f1)
    ensures var g := TryFire(w.cooldowns, SaveCommand, f.now, SaveCooldownMs);
            && f1.effects == (if g.fired then [ImageSaved] else [])
            && f1.writer.cooldowns == g.cooldowns
            && f1.writer.colorIdx == w.colorIdx
            && f1.writer.stacks == w.stacks
  {
    f1 := HandleResults(w, f.hands, f.now, f.canvas).value;
  }

  /** The rest of a run of frames that all make gesture `m`. */
  lemma TailFrames<S>(fs: seq<HandFrame<S>>, m: Mode)
    requires |fs| > 0 && forall i :: 0 <= i < |fs| ==> GestureFrame(fs[i], m)
    ensures forall i :: 0 <= i < |fs[1..]| ==> GestureFrame(fs[1..][i], m)
    ensures Times(fs)[1..] == Times(fs[1..]) && Times(fs)[0] == fs[0].now
  {
    assert forall i :: 0 <= i < |fs[1..]| ==> fs[1..][i] == fs[i + 1];
  }

  /** Holding the peace sign: the colour changes exactly as often as the
      cooldown gate fires over the frames' times, each change one palette step
      further, and the firings are more than the colour cooldown apart. The
      history is untouched. */
  lemma PeaceSignIsRateLimited<S>(w: Writer<S>, fs: seq<HandFrame<S>>)
    requires forall i :: 0 <= i < |fs| ==> GestureFrame(fs[i], Color)
    ensures RunFrames(w, fs).Some?
    ensures var r := RunFrames(w, fs).value;
            var fired := Firings(w.cooldowns, ColorCommand, ColorCooldownMs, Times(fs));
            && r.effects == ColorChanges(w.colorIdx, |fired|)
            && r.writer.colorIdx == Iterate(w.colorIdx, |fired|)
            && r.writer.stacks == w.stacks
            && (forall i :: 0 < i < |fired| ==> fired[i] - fired[i - 1] > ColorCooldownMs)
  {
    PeaceSignRun(w, fs);
    FiringsAreSpaced(w.cooldowns, ColorCommand, ColorCooldownMs, Times(fs));
  }

  lemma {:induction false} PeaceSignRun<S>(w: Writer<S>, fs: seq<HandFrame<S>>)
    requires forall i :: 0 <= i < |fs| ==> GestureFrame(fs[i], Color)
    ensures RunFrames(w, fs).Some?
    ensures var r := RunFrames(w, fs).value;
            var n := |Firings(w.cooldowns, ColorCommand, ColorCooldownMs, Times(fs))|;
            r.effects == ColorChanges(w.colorIdx, n) && r.writer.colorIdx == Iterate(w.colorIdx, n) &&
            r.writer.stacks == w.stacks
    decreases |fs|
  {
    if fs != [] {
      var g := TryFire(w.cooldowns, ColorCommand, fs[0].now, ColorCooldownMs);
      var f1 := ColorFrameStep(w, fs[0]);
      TailFrames(fs, Color);
      PeaceSignRun(f1.writer, fs[1..]);
      var f2 := RunFrames(f1.writer, fs[1..]).value;
      RunFramesCons(w, fs, f1, f2);
      var n := |Firings(g.cooldowns, ColorCommand, ColorCooldownMs, Times(fs[1..]))|;
      assert |Firings(w.cooldowns, ColorCommand, ColorCooldownMs, Times(fs))| == (if g.fired then 1 else 0) + n;
      if g.fired {
        OneMoreChange(w.colorIdx, n);
      }
    }
  }

  /** A colour change followed by `n` more is `n + 1` changes. */
  lemma OneMoreChange(i: nat, n: nat)
    ensures ColorChanges(i, n + 1) == [ColorChanged(NextColor(i))] + ColorChanges(NextColor(i), n)
    ensures Iterate(NextColor(i), n) == Iterate(i, n + 1)
  {
    IterateShift(i, n);
  }

  /** Holding a thumbs-up fist: the image is saved exactly as often as the
      save gate fires over the frames' times, more than the save cooldown
      apart, and the colour and the history do not change. */
  lemma {:induction false} ThumbsUpIsRateLimited<S>(w: Writer<S>, fs: seq<HandFrame<S>>)
    requires forall i :: 0 <= i < |fs| ==> GestureFrame(fs[i], Save)
    ensures RunFrames(w, fs).Some?
    ensures var r := RunFrames(w, fs).value;
            var fired := Firings(w.cooldowns, SaveCommand, SaveCooldownMs, Times(fs));
            && |r.effects| == |fired|
            && (forall k :: 0 <= k < |r.effects| ==> r.effects[k] == ImageSaved)
            && r.writer.colorIdx == w.colorIdx
            && r.writer.stacks == w.stacks
            && (forall i :: 0 < i < |fired| ==> fired[i] - fired[i - 1] > SaveCooldownMs)
    decreases |fs|
  {
    FiringsAreSpaced(w.cooldowns, SaveCommand, SaveCooldownMs, Times(fs));
    if fs != [] {
      var g := TryFire(w.cooldowns, SaveCommand, fs[0].now, SaveCooldownMs);
      var f1 := SaveFrameStep(w, fs[0]);
      TailFrames(fs, Save);
      ThumbsUpIsRateLimited(f1.writer, fs[1..]);
      var f2 := RunFrames(f1.writer, fs[1..]).value;
      RunFramesCons(w, fs, f1, f2);
      assert Firings(w.cooldowns, SaveCommand, SaveCooldownMs, Times(fs))
          == (if g.fired then [fs[0].now] else []) + Firings(g.cooldowns, SaveCommand, SaveCooldownMs, Times(fs[1..]));
    }
  }

  /** On a fresh screen the first peace sign always changes the colour: the
      gate counts a command that never fired as fired at time 0, and any
      `Date.now()` reading is far more than the cooldown past that. */
  lemma FreshColorFrameFires<S>(f: HandFrame<S>)
    requires GestureFrame(f, Color) && f.now > ColorCooldownMs
    ensures var r := HandleResults(InitWriter<S>(), f.hands, f.now, f.canvas);
            && r.Some? && r.value.effects == [ColorChanged(3)]
            && ColorNames[r.value.writer.colorIdx] == "Blue"
            && LastFired(r.value.writer.cooldowns, ColorCommand) == f.now
  {
    var w := InitWriter<S>();
    assert w.cooldowns == map[] && w.colorIdx == 2;
    var f1 := ColorFrameStep(w, f);
  }

  /** From a fresh screen, a peace sign seen at `t`, 0.7 s later and 2 s
      after `t` changes the colour twice, at `t` and at `t` + 2 s, from green
      to yellow; `t` is a `Date.now()` reading, so past the cooldown. */
  lemma FreshPeaceSign<S>(fs: seq<HandFrame<S>>, t: int)
    requires forall i :: 0 <= i < |fs| ==> GestureFrame(fs[i], Color)
    requires t > ColorCooldownMs && Times(fs) == [t, t + 700, t + 2000]
    ensures Firings(InitWriter<S>().cooldowns, ColorCommand, ColorCooldownMs, Times(fs)) == [t, t + 2000]
    ensures RunFrames(InitWriter<S>(), fs).Some?
    ensures RunFrames(InitWriter<S>(), fs).value.effects == [ColorChanged(3), ColorChanged(4)]
    ensures ColorNames[RunFrames(InitWriter<S>(), fs).value.writer.colorIdx] == "Yellow"
  {
    var w := InitWriter<S>();
    assert w.cooldowns == map[] && w.colorIdx == 2;
    FreshFirings(t);
    PeaceSignIsRateLimited(w, fs);
    ChangesFromGreen();
  }

  /** The colour gate over `t`, `t` + 0.7 s and `t` + 2 s with no earlier
      firing. */
  lemma FreshFirings(t: int)
    requires t > ColorCooldownMs
    ensures Firings(map[], ColorCommand, ColorCooldownMs, [t, t + 700, t + 2000]) == [t, t + 2000]
  {
    var m1: map<Command, int> := map[ColorCommand := t];
    assert TryFire(map[], ColorCommand, t, ColorCooldownMs).cooldowns == m1;
    assert Firings(m1, ColorCommand, ColorCooldownMs, [t + 2000]) == [t + 2000];
    assert [t + 700, t + 2000][1..] == [t + 2000];
    assert Firings(m1, ColorCommand, ColorCooldownMs, [t + 700, t + 2000]) == [t + 2000];
    assert [t, t + 700, t + 2000][1..] == [t + 700, t + 2000];
  }

  /** Two changes from green are blue, then yellow. */
  lemma ChangesFromGreen()
    ensures ColorChanges(2, 2) == [ColorChanged(3), ColorChanged(4)]
    ensures Iterate(2, 2) == 4 && ColorNames[4] == "Yellow"
  {
  }
}
