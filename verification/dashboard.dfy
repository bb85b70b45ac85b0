/** The dashboard's figures (src/components/Dashboard.tsx): totals and
    averages over the stored sessions, the experience level and its progress
    bar, the "Focus HP" hearts, the water counter and the colour of each log
    entry. Arithmetic is exact; floating-point rounding is not modelled. */
module Dashboard {
  import opened Common
  import opened Types
  import FocusGuard

  /** `reduce((acc, x) => acc + x, 0)`: a left-to-right sum. */
  function Sum(xs: seq<real>): (r: real)
    ensures (forall i :: 0 <= i < |xs| ==> 0.0 <= xs[i]) ==> 0.0 <= r
    decreases |xs|
  {
    if xs == [] then 0.0 else Sum(xs[..|xs| - 1]) + xs[|xs| - 1]
  }

  /** The sum of a single value is that value. */
  lemma SumOfOne(xs: seq<real>)
    ensures |xs| == 1 ==> Sum(xs) == xs[0]
  {
    if |xs| == 1 {
      assert xs[..0] == [];
    }
  }

  /** Every entry within `[lo, hi]` puts the sum within `|xs|` times those
      bounds. */
  lemma {:induction false} SumBounds(xs: seq<real>, lo: real, hi: real)
    requires forall i :: 0 <= i < |xs| ==> lo <= xs[i] <= hi
    ensures |xs| as real * lo <= Sum(xs) <= |xs| as real * hi
    decreases |xs|
  {
    if xs != [] {
      var init := xs[..|xs| - 1];
      assert forall i :: 0 <= i < |init| ==> init[i] == xs[i];
      SumBounds(init, lo, hi);
      var n := |init| as real;
      assert |xs| as real * lo == n * lo + lo;
      assert |xs| as real * hi == n * hi + hi;
    }
  }

  /** Sums split at any point. */
  lemma {:induction false} SumAppend(xs: seq<real>, ys: seq<real>)
    ensures Sum(xs + ys) == Sum(xs) + Sum(ys)
    decreases |ys|
  {
    if ys == [] {
      assert xs + ys == xs;
    } else {
      var init := ys[..|ys| - 1];
      var all := xs + ys;
      assert all[..|all| - 1] == xs + init;
      assert all[|all| - 1] == ys[|ys| - 1];
      assert Sum(all) == Sum(xs + init) + ys[|ys| - 1];
      assert Sum(ys) == Sum(init) + ys[|ys| - 1];
      SumAppend(xs, init);
    }
  }

  /** The present minutes of every stored session, in order. */
  function PresentMinutes(h: seq<SessionRecord>): (xs: seq<real>)
    ensures |xs| == |h| && forall i :: 0 <= i < |h| ==> xs[i] == h[i].presentMins
  {
    seq(|h|, i requires 0 <= i < |h| => h[i].presentMins)
  }

  /** The focus percentage of every stored session, in order. */
  function FocusPercentages(h: seq<SessionRecord>): (xs: seq<real>)
    ensures |xs| == |h| && forall i :: 0 <= i < |h| ==> xs[i] == h[i].focusPercentage
  {
    seq(|h|, i requires 0 <= i < |h| => h[i].focusPercentage)
  }

  /** totalFocusTime: minutes present over the sessions the dashboard
      receives. */
  function TotalFocusTime(h: seq<SessionRecord>): (r: real)
    ensures (forall i :: 0 <= i < |h| ==> 0.0 <= h[i].presentMins) ==> 0.0 <= r
    ensures h == [] ==> r == 0.0
    ensures |h| == 1 ==> r == h[0].presentMins
  {
    SumOfOne(PresentMinutes(h));
    Sum(PresentMinutes(h))
  }

  /** Adding sessions adds their present minutes: the total over two lists
      of sessions is the sum of the totals. */
  lemma TotalFocusTimeAdds(h1: seq<SessionRecord>, h2: seq<SessionRecord>)
    ensures TotalFocusTime(h1 + h2) == TotalFocusTime(h1) + TotalFocusTime(h2)
  {
    assert PresentMinutes(h1 + h2) == PresentMinutes(h1) + PresentMinutes(h2);
    SumAppend(PresentMinutes(h1), PresentMinutes(h2));
  }

  /** One more session adds exactly its present minutes; with the empty
      total this fixes the total as the sum of every session's minutes. */
  lemma {:induction false} TotalFocusTimeSnoc(h: seq<SessionRecord>, s: SessionRecord)
    ensures TotalFocusTime(h + [s]) == TotalFocusTime(h) + s.presentMins
  {
    TotalFocusTimeAdds(h, [s]);
  }

  /** The total of a history is the sum, taken in order, of every session's
      present minutes (the reference fold over the records themselves). */
  function PresentTotal(h: seq<SessionRecord>): real
    decreases |h|
  {
    if h == [] then 0.0 else PresentTotal(h[..|h| - 1]) + h[|h| - 1].presentMins
  }

  lemma {:induction false} TotalFocusTimeIsPresentTotal(h: seq<SessionRecord>)
    ensures TotalFocusTime(h) == PresentTotal(h)
    decreases |h|
  {
    if h != [] {
      var init := h[..|h| - 1];
      assert h == init + [h[|h| - 1]];
      TotalFocusTimeIsPresentTotal(init);
      TotalFocusTimeSnoc(init, h[|h| - 1]);
    }
  }

  /** avgFocus: the mean focus percentage, 0 with no sessions. */
  function AvgFocus(h: seq<SessionRecord>): (r: real)
    ensures h == [] ==> r == 0.0
    ensures h != [] ==> r * |h| as real == Sum(FocusPercentages(h))
    ensures (forall i :: 0 <= i < |h| ==> 0.0 <= h[i].focusPercentage <= 100.0) ==> 0.0 <= r <= 100.0
  {
    if |h| > 0 then
      AverageBounds(FocusPercentages(h), 0.0, 100.0);
      Sum(FocusPercentages(h)) / |h| as real
    else 0.0
  }

  /** The mean of values within `[lo, hi]` is within `[lo, hi]`. */
  lemma {:induction false} AverageBounds(xs: seq<real>, lo: real, hi: real)
    requires |xs| > 0
    ensures (forall i :: 0 <= i < |xs| ==> lo <= xs[i] <= hi) ==>
              lo <= Sum(xs) / |xs| as real <= hi
  {
    if forall i :: 0 <= i < |xs| ==> lo <= xs[i] <= hi {
      SumBounds(xs, lo, hi);
      DivideBounds(Sum(xs), |xs| as real, lo, hi);
    }
  }

  lemma DivideBounds(s: real, n: real, lo: real, hi: real)
    requires 0.0 < n && n * lo <= s <= n * hi
    ensures lo <= s / n <= hi
  {
    var m := s / n;
    assert m * n == s;
    if m < lo {
      MulMonotone(m, lo, n);
    }
    if m > hi {
      MulMonotone(hi, m, n);
    }
  }

  /** Minutes of focus per level. */
  const MinutesPerLevel: real := 60.0

  /** xpLevel: one level per full hour of focus, starting at level 1. */
  function XpLevel(total: real): (r: int)
    ensures 60.0 * (r - 1) as real <= total < 60.0 * r as real
    ensures 0.0 <= total ==> 1 <= r
  {
    Floor(total / MinutesPerLevel) + 1
  }

  /** More focus time never lowers the level. */
  lemma XpLevelMonotone(a: real, b: real)
    requires a <= b
    ensures XpLevel(a) <= XpLevel(b)
  {
  }

  /** xpProgress: the percentage of the current hour already done. */
  function XpProgress(total: real): (r: real)
    ensures 0.0 <= total ==> 0.0 <= r < 100.0
    ensures total < 0.0 ==> -100.0 < r <= 0.0
  {
    JsRem(total, MinutesPerLevel) / MinutesPerLevel * 100.0
  }

  /** For a non-negative total the level and the bar together give the total
      back: full hours before the current level plus the shown fraction of an
      hour. */
  lemma LevelAndProgress(total: real)
    requires 0.0 <= total
    ensures 60.0 * (XpLevel(total) - 1) as real + XpProgress(total) * 0.6 == total
  {
    var q := Trunc(total / 60.0);
    TruncTimes(total, 60.0);
    assert q == Floor(total / 60.0);
    assert JsRem(total, 60.0) == total - q as real * 60.0;
  }

  /** The hearts shown: slot `i` of `slots` is filled when `i < k`. */
  function FilledSlots(slots: nat, k: int): (n: nat)
    ensures k <= 0 ==> n == 0
    ensures 0 <= k <= slots ==> n == k
    ensures slots <= k ==> n == slots
    decreases slots
  {
    if slots == 0 then 0
    else FilledSlots(slots - 1, k) + (if slots - 1 < k then 1 else 0)
  }

  const HeartSlots: nat := 10

  /** Focus HP: ten hearts, one filled per started ten percent of the
      average focus. */
  function FilledHearts(avg: real): (n: nat)
    ensures n <= HeartSlots
    ensures 0.0 <= avg <= 100.0 ==> n == Ceil(avg / 10.0)
    ensures (n == 0 <==> avg <= 0.0)
    ensures avg > 90.0 ==> n == HeartSlots
  {
    FilledSlots(HeartSlots, Ceil(avg / 10.0))
  }

  /** A better average never shows fewer hearts. */
  lemma HeartsMonotone(a: real, b: real)
    requires a <= b
    ensures FilledHearts(a) <= FilledHearts(b)
  {
  }

  /** The water counter's upper bound. */
  const WaterGoal: int := 8

  /** One click on the water button. */
  function WaterClick(c: int): (r: int)
    ensures c < WaterGoal ==> r == c + 1
    ensures c >= WaterGoal ==> r == WaterGoal
  {
    if c + 1 < WaterGoal then c + 1 else WaterGoal
  }

  function WaterAfter(clicks: nat): int
    decreases clicks
  {
    if clicks == 0 then 0 else WaterClick(WaterAfter(clicks - 1))
  }

  /** From zero, `n` clicks show `min(n, 8)`: the counter climbs one per click
      and then stays at the goal. */
  lemma {:induction false} WaterCounterCaps(n: nat)
    ensures n <= WaterGoal ==> WaterAfter(n) == n
    ensures n >= WaterGoal ==> WaterAfter(n) == WaterGoal
    decreases n
  {
    if n > 0 {
      WaterCounterCaps(n - 1);
    }
  }

  /** The colour of a session's entry in the mission log. */
  datatype LogTier = LogGreen | LogYellow | LogRed

  function LogTierFor(p: real): (t: LogTier)
    ensures t == LogGreen <==> p >= 80.0
    ensures t == LogYellow <==> 60.0 <= p < 80.0
    ensures t == LogRed <==> p < 60.0
  {
    if p >= 80.0 then LogGreen else if p >= 60.0 then LogYellow else LogRed
  }

  /** The log colours and the live focus bar agree except exactly at the two
      thresholds, where the log's `>=` and the bar's `>` part ways. */
  lemma TiersAgreeOffThresholds(p: real)
    ensures p != 80.0 && p != 60.0 ==>
              (LogTierFor(p) == LogGreen <==> FocusGuard.FocusBarColour(p) == FocusGuard.BarGreen) &&
              (LogTierFor(p) == LogRed <==> FocusGuard.FocusBarColour(p) == FocusGuard.BarRed)
    ensures LogTierFor(80.0) == LogGreen && FocusGuard.FocusBarColour(80.0) == FocusGuard.BarYellow
    ensures LogTierFor(60.0) == LogYellow && FocusGuard.FocusBarColour(60.0) == FocusGuard.BarRed
  {
  }
}
