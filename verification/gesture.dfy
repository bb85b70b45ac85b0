/** The hand-gesture classifier of the air-writing screen (`detectGesture` in
    src/components/AirWriter.tsx): a first-match decision list over the 21
    normalised landmarks of one hand. */
module Gesture {
  import opened Common

  /** A landmark in the detector's normalised coordinates; a smaller `y` is
      higher on screen. */
  datatype Point = Point(x: real, y: real)

  /** The source's `Mode`; `Idle` is its "none". */
  datatype Mode = Draw | Erase | Pause | Color | Save | Idle

  /** What the classifier returns: the mode, the anchor point (`pos`, absent
      for an unrecognised hand) and, for a pinch, the squared thumb-to-index
      distance (the source returns the distance itself in `extra`). */
  datatype Reading = Reading(mode: Mode, pos: Option<Point>, pinchDistSq: Option<real>)

  const LandmarkCount: nat := 21

  // Landmark indices of the hand model.
  const Wrist: nat := 0
  const ThumbIp: nat := 3
  const ThumbTip: nat := 4
  const IndexMcp: nat := 5
  const IndexPip: nat := 6
  const IndexTip: nat := 8
  const MiddlePip: nat := 10
  const MiddleTip: nat := 12
  const RingPip: nat := 14
  const RingTip: nat := 16
  const PinkyMcp: nat := 17
  const PinkyPip: nat := 18
  const PinkyTip: nat := 20

  /** A thumb tip closer than this to the index tip is a pinch. */
  const PinchThreshold: real := 0.05

  /** A finger is up when its tip is above its middle joint. */
  predicate IsUp(lm: seq<Point>, tip: nat, pip: nat)
    requires tip < |lm| && pip < |lm|
  {
    lm[tip].y < lm[pip].y
  }

  /** The source's simple thumb test: the tip lies left of the joint below it. */
  predicate ThumbUp(lm: seq<Point>)
    requires |lm| >= LandmarkCount
  {
    lm[ThumbTip].x < lm[ThumbIp].x
  }

  /** Up or down for index, middle, ring and pinky, in that order. */
  function Fingers(lm: seq<Point>): (f: seq<bool>)
    requires |lm| >= LandmarkCount
    ensures |f| == 4
  {
    [IsUp(lm, IndexTip, IndexPip), IsUp(lm, MiddleTip, MiddlePip),
     IsUp(lm, RingTip, RingPip), IsUp(lm, PinkyTip, PinkyPip)]
  }

  /** Centre of the palm: the mean of the wrist and the index and pinky
      knuckles. */
  function Palm(lm: seq<Point>): Point
    requires |lm| >= LandmarkCount
  {
    Point((lm[Wrist].x + lm[IndexMcp].x + lm[PinkyMcp].x) / 3.0,
          (lm[Wrist].y + lm[IndexMcp].y + lm[PinkyMcp].y) / 3.0)
  }

  /** Squared distance between thumb tip and index tip. */
  function PinchDistSq(lm: seq<Point>): (d: real)
    requires |lm| >= LandmarkCount
    ensures d >= 0.0
  {
    var dx := lm[ThumbTip].x - lm[IndexTip].x;
    var dy := lm[ThumbTip].y - lm[IndexTip].y;
    dx * dx + dy * dy
  }

  /** The finger patterns with a gesture of their own. */
  predicate OpenPalm(f: seq<bool>) requires |f| == 4 { f[0] && f[1] && f[2] && f[3] }
  predicate Peace(f: seq<bool>) requires |f| == 4 { f[0] && f[1] && !f[2] && !f[3] }
  predicate IndexOnly(f: seq<bool>) requires |f| == 4 { f[0] && !f[1] && !f[2] && !f[3] }
  predicate Fist(f: seq<bool>) requires |f| == 4 { !f[0] && !f[1] && !f[2] && !f[3] }

  /** detectGesture. A hand with fewer than 21 landmarks has no reading: the
      source would fail reading a missing landmark. */
  function DetectGesture(lm: seq<Point>): (r: Option<Reading>)
    ensures r.Some? <==> |lm| >= LandmarkCount
    // open palm (all four fingers, i.e. at least four) erases at the palm
    ensures r.Some? ==> (r.value.mode == Erase <==> OpenPalm(Fingers(lm)))
    ensures r.Some? && r.value.mode == Erase ==> r.value.pos == Some(Palm(lm))
    // peace sign selects the next colour, index alone draws; both at the index tip
    ensures r.Some? ==> (r.value.mode == Color <==> Peace(Fingers(lm)))
    ensures r.Some? ==> (r.value.mode == Draw <==> IndexOnly(Fingers(lm)))
    ensures r.Some? && (r.value.mode == Color || r.value.mode == Draw) ==> r.value.pos == Some(lm[IndexTip])
    // a fist pauses at the palm, or saves at the thumb tip when the thumb is up
    ensures r.Some? ==> (r.value.mode == Pause <==> Fist(Fingers(lm)) && !ThumbUp(lm))
    ensures r.Some? ==> (r.value.mode == Save <==> Fist(Fingers(lm)) && ThumbUp(lm))
    ensures r.Some? && r.value.mode == Pause ==> r.value.pos == Some(Palm(lm))
    ensures r.Some? && r.value.mode == Save ==> r.value.pos == Some(lm[ThumbTip])
    // any other pattern is idle: a pinch keeps the index tip and the distance
    ensures r.Some? ==> (r.value.pinchDistSq.Some? <==>
              r.value.mode == Idle && PinchDistSq(lm) < PinchThreshold * PinchThreshold)
    ensures r.Some? && r.value.pinchDistSq.Some? ==>
              r.value.pinchDistSq == Some(PinchDistSq(lm)) && r.value.pos == Some(lm[IndexTip])
    ensures r.Some? ==> (r.value.pos.None? <==>
              r.value.mode == Idle && PinchDistSq(lm) >= PinchThreshold * PinchThreshold)
  {
    if |lm| < LandmarkCount then None
    else
      var f := Fingers(lm);
      var up := CountTrue(f);
      var indexPos := lm[IndexTip];
      if up >= 4 then Some(Reading(Erase, Some(Palm(lm)), None))
      else if f[0] && f[1] && !f[2] && !f[3] then Some(Reading(Color, Some(indexPos), None))
      else if f[0] && !f[1] && !f[2] && !f[3] then Some(Reading(Draw, Some(indexPos), None))
      else if up == 0 && !ThumbUp(lm) then Some(Reading(Pause, Some(Palm(lm)), None))
      else if ThumbUp(lm) && up == 0 then Some(Reading(Save, Some(lm[ThumbTip]), None))
      else
        var d := PinchDistSq(lm);
        if d < PinchThreshold * PinchThreshold then Some(Reading(Idle, Some(indexPos), Some(d)))
        else Some(Reading(Idle, None, None))
  }

  /** With no finger up the result is always pause or save; the pinch test is
      never reached. */
  lemma FistNeverPinches(lm: seq<Point>)
    requires |lm| >= LandmarkCount && CountTrue(Fingers(lm)) == 0
    ensures DetectGesture(lm).Some?
    ensures DetectGesture(lm).value.mode == Pause || DetectGesture(lm).value.mode == Save
    ensures DetectGesture(lm).value.pinchDistSq.None?
  {
    assert Fist(Fingers(lm));
  }

  /** Worked example: only the index finger up draws at the index tip,
      whatever the thumb does. */
  lemma IndexFingerDraws(lm: seq<Point>)
    requires |lm| >= LandmarkCount
    requires lm[IndexTip].y < lm[IndexPip].y
    requires lm[MiddleTip].y >= lm[MiddlePip].y && lm[RingTip].y >= lm[RingPip].y && lm[PinkyTip].y >= lm[PinkyPip].y
    ensures DetectGesture(lm) == Some(Reading(Draw, Some(lm[IndexTip]), None))
  {
  }
}
