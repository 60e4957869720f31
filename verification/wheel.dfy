/**
 * The page's state and its event handlers: the add button, the delete
 * buttons, the spin button and the animation frame callback. The clock
 * (`Date.now()`) and the three `Math.random()` draws of a spin are
 * parameters of the handlers that read them.
 */
module Wheel {
  import opened Text
  import opened EntryList
  import opened Rotation

  /** Whole turns every spin adds before its random part. */
  const SpinTurns: nat := 5

  /** Spin durations, in milliseconds, lie in
      `[MinDuration, MinDuration + DurationRange)`. */
  const MinDuration: real := 3000.0
  const DurationRange: real := 2000.0

  /** The spin button does nothing useful with fewer entries than this. */
  const MinSpinEntries: nat := 2

  /** Everything the page's handlers read and write. */
  datatype Page = Page(
    items: seq<Item>,   // the entry list's `<li>` elements, in order
    input: string,      // the value of the entry text field
    spinning: bool,
    rotation: real,     // `currentRotation`, radians
    target: real,       // `targetRotation`, radians
    startTime: int,     // `spinStartTime`, milliseconds
    duration: real)     // `spinDuration`, milliseconds

  datatype SpinOutcome =
    | Busy      // a spin is already running: the click is ignored
    | TooFew    // fewer than two entries: the page alerts
    | Started

  datatype FrameOutcome =
    | Continue                          // another frame is requested
    | Won(index: nat, winner: Entry)    // the spin is over; the popup shows `winner`
    | NoEntries                         // the spin is over but every entry was deleted

  /** The states the page can reach: the list never exceeds its cap, the
      rotation stays within one turn, and a running spin has a duration from
      its range and has not yet passed its target. */
  predicate Valid(w: Page) {
    && |w.items| <= MaxEntries
    && 0.0 <= w.rotation <= TwoPi
    && (w.spinning ==>
          && MinDuration <= w.duration < MinDuration + DurationRange
          && w.rotation <= w.target)
  }

  /** The page as loaded: an empty list, an empty field, a wheel at rest. */
  function Init(): (w: Page)
    ensures Valid(w) && !w.spinning && w.items == [] && w.rotation == 0.0
  {
    Page([], [], false, 0.0, 0.0, 0, 0.0)
  }

  /** A click on the add button. */
  function AddEntry(w: Page): (r: (Page, AddOutcome))
    ensures r.0.(items := w.items, input := w.input) == w
    ensures r.1 != Added ==> r.0 == w
    ensures r.1 == Added <==> !AllWhite(w.input) && |w.items| < MaxEntries
    ensures r.1 == Added ==>
              r.0.items == w.items + [Item(Store(Trim(w.input)), Palette[|w.items|])]
              && r.0.input == []
    ensures r.1 == Added && DeleteMark !in w.input ==>
              GetEntries(r.0.items)
              == GetEntries(w.items) + [Entry(Trim(w.input), Palette[|w.items|])]
    ensures Valid(w) ==> Valid(r.0)
  {
    var a := Add(w.items, w.input);
    assert a.outcome == Added && DeleteMark !in w.input ==>
             GetEntries(a.items)
             == GetEntries(w.items) + [Entry(Trim(w.input), Palette[|w.items|])] by {
      if a.outcome == Added && DeleteMark !in w.input {
        AddThenRead(w.items, w.input);
      }
    }
    (w.(items := a.items, input := a.input), a.outcome)
  }

  /** A click on the delete button of the `i`-th entry; it is honoured while
      the wheel spins, too. */
  function DeleteEntry(w: Page, i: nat): (r: Page)
    requires i < |w.items|
    ensures r.(items := w.items) == w
    ensures GetEntries(r.items) == GetEntries(w.items)[..i] + GetEntries(w.items)[i + 1..]
    ensures Valid(w) ==> Valid(r)
  {
    DeleteThenRead(w.items, i);
    w.(items := Delete(w.items, i))
  }

  /** `Math.floor(x * n)` for a draw `x` of `Math.random()`: a segment
      index. */
  function RandomSegment(x: real, n: nat): (s: nat)
    requires 0.0 <= x < 1.0 && n >= 1
    ensures s < n
  {
    FractionBelow(n as real, x);
    (x * n as real).Floor
  }

  /** Every segment index can be drawn. */
  lemma RandomSegmentCovers(s: nat, n: nat)
    requires s < n
    ensures 0.0 <= s as real / n as real < 1.0
    ensures RandomSegment(s as real / n as real, n) == s
  {
    var x := s as real / n as real;
    assert x * n as real == s as real;
    ScaleIff(s as real, n as real, 1.0);
    ScaleIff(s as real, n as real, 0.0);
  }

  /** `x * segmentAngle` for a draw `x`: a position within one segment. */
  function Offset(x: real, n: nat): (o: real)
    requires 0.0 <= x < 1.0 && n >= 1
    ensures 0.0 <= o < Seg(n)
  {
    FractionBelow(Seg(n), x);
    x * Seg(n)
  }

  /** `3000 + x * 2000` for a draw `x`. */
  function Duration(x: real): (d: real)
    requires 0.0 <= x < 1.0
    ensures MinDuration <= d < MinDuration + DurationRange
  {
    MinDuration + x * DurationRange
  }

  /** A segment index and an offset within a segment together stay below one
      turn. */
  lemma PartialTurnBounds(s: nat, seg: real, n: nat, o: real)
    requires s < n && seg > 0.0 && n as real * seg == TwoPi && 0.0 <= o < seg
    ensures 0.0 <= s as real * seg + o < TwoPi
  {
    MulLeIff(0.0, s as real, seg);
    MulLeIff((s + 1) as real, n as real, seg);
  }

  /** The spin's target: five whole turns beyond the current rotation, then
      `s` segments, then the offset `o`. */
  function Target(current: real, n: nat, s: nat, o: real): (t: real)
    requires n >= 1 && s < n && 0.0 <= o < Seg(n)
    ensures current + SpinTurns as real * TwoPi <= t < current + (SpinTurns + 1) as real * TwoPi
  {
    PartialTurnBounds(s, Seg(n), n, o);
    current + SpinTurns as real * TwoPi + s as real * Seg(n) + o
  }

  /** The state a spin starts in, at time `now` with the draws `dur`, `seg`
      and `ang`: a duration from its range and a target five to six turns
      ahead; nothing else changes. */
  function Spun(w: Page, now: int, dur: real, seg: real, ang: real): (v: Page)
    requires 0.0 <= dur < 1.0 && 0.0 <= seg < 1.0 && 0.0 <= ang < 1.0
    requires |w.items| >= 1
    ensures v.spinning && v.startTime == now
    ensures MinDuration <= v.duration < MinDuration + DurationRange
    ensures w.rotation + SpinTurns as real * TwoPi <= v.target
    ensures v.target < w.rotation + (SpinTurns + 1) as real * TwoPi
    ensures v.(spinning := w.spinning, target := w.target,
               startTime := w.startTime, duration := w.duration) == w
  {
    var n := |w.items|;
    w.(spinning := true, startTime := now, duration := Duration(dur),
       target := Target(w.rotation, n, RandomSegment(seg, n), Offset(ang, n)))
  }

  /** A click on the spin button at time `now`, with `dur`, `seg` and `ang`
      the three draws of `Math.random()` the page makes, in order. */
  function SpinWheel(w: Page, now: int, dur: real, seg: real, ang: real): (r: (Page, SpinOutcome))
    requires 0.0 <= dur < 1.0 && 0.0 <= seg < 1.0 && 0.0 <= ang < 1.0
    ensures w.spinning ==> r == (w, Busy)
    ensures !w.spinning && |w.items| < MinSpinEntries ==> r == (w, TooFew)
    ensures !w.spinning && |w.items| >= MinSpinEntries ==>
              r == (Spun(w, now, dur, seg, ang), Started)
    ensures Valid(w) ==> Valid(r.0)
  {
    if w.spinning then (w, Busy)
    else if |GetEntries(w.items)| < MinSpinEntries then (w, TooFew)
    else (Spun(w, now, dur, seg, ang), Started)
  }

  /** The rotation line 198 of a frame at `now` computes before the
      normalisation loop: the eased fraction of the way from the current
      rotation to the target. */
  function Swept(w: Page, now: int): (y: real)
    requires w.duration > 0.0
    ensures w.rotation <= w.target && now >= w.startTime ==> w.rotation <= y <= w.target
    ensures (now - w.startTime) as real >= w.duration ==> y == w.target
    ensures now == w.startTime ==> y == w.rotation
  {
    var p := Progress(now - w.startTime, w.duration);
    assert now == w.startTime ==> p == 0.0 by {
      if now == w.startTime {
        assert p * w.duration == 0.0;
      }
    }
    Step(w.rotation, w.target, EaseOut(p))
  }

  /** The later the frame, the further toward the target it moves the wheel
      (before whole turns are removed). */
  lemma LaterFrameGoesFurther(w: Page, now1: int, now2: int)
    requires w.duration > 0.0 && w.rotation <= w.target
    requires w.startTime <= now1 <= now2
    ensures Swept(w, now1) <= Swept(w, now2)
  {
    var p1 := Progress(now1 - w.startTime, w.duration);
    var p2 := Progress(now2 - w.startTime, w.duration);
    ProgressMonotone(now1 - w.startTime, now2 - w.startTime, w.duration);
    EaseOutMonotone(p1, p2);
    StepMonotone(w.rotation, w.target, EaseOut(p1), EaseOut(p2));
  }

  /** A step toward the target, brought back within one turn, stays between
      nothing and the target. */
  lemma AdvanceBounds(current: real, y: real, target: real)
    ensures 0.0 <= current <= y <= target ==>
              var x := Reduced(y);
              0.0 <= x <= TwoPi && x <= target
  {
  }

  /** The rotation a frame at `now` leaves: the eased fraction of the way
      from the current rotation to the target, less whole turns while it
      exceeds one turn. */
  function Advance(w: Page, now: int): (x: real)
    requires w.duration > 0.0
    ensures Angle(x) == Angle(Swept(w, now)) && x <= TwoPi
    ensures (now - w.startTime) as real >= w.duration ==> x == Reduced(w.target)
    ensures 0.0 <= w.rotation <= w.target && now >= w.startTime ==>
              0.0 <= x <= TwoPi && x <= w.target
  {
    var y := Swept(w, now);
    AdvanceBounds(w.rotation, y, w.target);
    Reduced(y)
  }

  /** Up to the whole turns the normalisation loop removes, a frame moves
      the wheel forward from where it stood, and no further than the
      target. */
  lemma AdvanceMovesForward(w: Page, now: int) returns (k: nat)
    requires w.duration > 0.0
    ensures Advance(w, now) + k as real * TwoPi == Swept(w, now)
    ensures 0.0 <= w.rotation <= w.target && now >= w.startTime ==>
              w.rotation <= Advance(w, now) + k as real * TwoPi <= w.target
  {
    k := ReducedTurns(Swept(w, now));
  }

  /** One animation frame at time `now` of a running spin: the rotation moves
      the eased fraction of the remaining way to the target and is brought
      back into one turn; once the duration has elapsed the spin stops and
      the entry under the pointer wins. */
  function Frame(w: Page, now: int): (r: (Page, FrameOutcome))
    requires w.spinning && w.duration > 0.0
    ensures r.0.(spinning := w.spinning, rotation := w.rotation) == w
    ensures r.0.rotation == Advance(w, now)
    ensures r.0.spinning <==> (now - w.startTime) as real < w.duration
    ensures r.1 == Continue <==> r.0.spinning
    ensures !r.0.spinning ==> r.0.rotation == Reduced(w.target)
    ensures r.1 == NoEntries <==> !r.0.spinning && w.items == []
    ensures r.1.Won? ==>
              && r.1.index < |w.items|
              && r.1.winner == GetEntries(w.items)[r.1.index]
              && r.1.index == WinnerIndex(r.0.rotation, |w.items|)
              && UnderPointer(r.1.index, |w.items|, r.0.rotation)
              && UnderPointer(r.1.index, |w.items|, w.target)
    ensures Valid(w) && now >= w.startTime ==> Valid(r.0)
  {
    var p := Progress(now - w.startTime, w.duration);
    var x := Advance(w, now);
    if p < 1.0 then (w.(rotation := x), Continue)
    else
      var done := w.(spinning := false, rotation := x);
      var es := GetEntries(w.items);
      if |es| == 0 then (done, NoEntries)
      else
        var i := WinnerIndex(x, |es|);
        WinnerIsUnderPointer(x, |es|, i);
        AngleNeg(x, w.target);
        (done, Won(i, es[i]))
  }

  /** The target is the offset and `s` segments beyond the current rotation,
      plus whole turns. */
  lemma TargetRegrouped(current: real, n: nat, s: nat, o: real)
    requires n >= 1 && s < n && 0.0 <= o < Seg(n)
    ensures Target(current, n, s, o)
            == current + o + s as real * Seg(n) + SpinTurns as real * TwoPi
  {
  }

  /** The winner of a spin, once it stops, is fixed by the rotation it
      started from and the two position draws: the wheel lands `s` segments
      and the offset `o` beyond where it stood. */
  lemma TargetWinner(current: real, n: nat, s: nat, o: real)
    requires n >= 1 && s < n && 0.0 <= o < Seg(n)
    ensures WinnerIndex(Reduced(Target(current, n, s, o)), n)
            == (WinnerIndex(current + o, n) - s) % n
  {
    var t := Target(current, n, s, o);
    var x := current + o + s as real * Seg(n);
    TargetRegrouped(current, n, s, o);
    WinnerOfReduced(t, n);
    WinnerPeriodic(x, SpinTurns, n);
    WinnerShiftBy(current + o, n, s);
  }

  /** From rest at angle 0 with a non-zero offset, the spin stops on segment
      `n - 1 - s`: every segment can win, and which one is fixed by the
      segment draw. */
  lemma TargetWinnerFromRest(n: nat, s: nat, o: real)
    requires n >= 1 && s < n && 0.0 < o < Seg(n)
    ensures WinnerIndex(Reduced(Target(0.0, n, s, o)), n) == n - 1 - s
  {
    TargetWinner(0.0, n, s, o);
    assert 0.0 + o == o;
    WinnerOfSmallTurn(o, n);
    ModOfIndex(n - 1 - s, n);
  }

  /** The frame that ends a spin with entries left announces the entry under
      the pointer at the target. */
  lemma FinalFrame(w: Page, now: int)
    requires w.spinning && w.duration > 0.0 && w.items != []
    requires (now - w.startTime) as real >= w.duration
    ensures var i := WinnerIndex(Reduced(w.target), |w.items|);
            Frame(w, now).1 == Won(i, GetEntries(w.items)[i])
  {
    var f := Frame(w, now);
    assert f.1.Won?;
  }

  /** The frame that ends a spin aimed at `Target(current, n, s, o)` announces
      the entry `s` segments back from the one under the pointer at
      `current + o`. */
  lemma StopsOnTarget(v: Page, now: int, current: real, n: nat, s: nat, o: real)
    requires v.spinning && v.duration > 0.0 && (now - v.startTime) as real >= v.duration
    requires n == |v.items| && n >= 1 && s < n && 0.0 <= o < Seg(n)
    requires v.target == Target(current, n, s, o)
    ensures var i := (WinnerIndex(current + o, n) - s) % n;
            0 <= i < n && Frame(v, now).1 == Won(i, GetEntries(v.items)[i])
  {
    FinalFrame(v, now);
    TargetWinner(current, n, s, o);
  }

  /** The fields a spin sets when it starts. */
  lemma SpunFields(w: Page, start: int, dur: real, seg: real, ang: real)
    requires 0.0 <= dur < 1.0 && 0.0 <= seg < 1.0 && 0.0 <= ang < 1.0
    requires |w.items| >= 1
    ensures var v := Spun(w, start, dur, seg, ang);
            var n := |w.items|;
            && v.items == w.items && v.spinning
            && v.startTime == start && v.duration == Duration(dur)
            && v.target == Target(w.rotation, n, RandomSegment(seg, n), Offset(ang, n))
  {
  }

  /** The click that starts a spin decides its winner, provided no entry is
      added or deleted during the spin: the target it sets lies under the
      entry `s` segments back from the one under the pointer at the current
      rotation plus the offset. Frames change only the rotation and the
      running flag (`Frame`), so with the list unchanged the frame that ends
      the spin announces this entry (`FinalFrame`). An add or a delete while
      the wheel turns changes the segment count, and with it the winner. */
  lemma SpinDecidesWinner(w: Page, start: int, dur: real, seg: real, ang: real)
    requires 0.0 <= dur < 1.0 && 0.0 <= seg < 1.0 && 0.0 <= ang < 1.0
    requires !w.spinning && |w.items| >= MinSpinEntries
    ensures SpinWheel(w, start, dur, seg, ang).1 == Started
    ensures var v := SpinWheel(w, start, dur, seg, ang).0;
            var n := |w.items|;
            var i := (WinnerIndex(w.rotation + Offset(ang, n), n) - RandomSegment(seg, n)) % n;
            && v.spinning && v.startTime == start && v.duration == Duration(dur)
            && v.items == w.items && 0 <= i < n
            && WinnerIndex(Reduced(v.target), n) == i
  {
    var n := |w.items|;
    SpunFields(w, start, dur, seg, ang);
    TargetWinner(w.rotation, n, RandomSegment(seg, n), Offset(ang, n));
  }
}
