/**
 * The angle arithmetic of the wheel: the segment size, the normalisation of
 * the rotation after each animation frame, the choice of the winning segment,
 * and the cubic ease-out curve.
 *
 * Angles are exact reals. `TwoPi` is the exact value of the IEEE double that
 * the page computes as `2 * Math.PI`, but every operation on it below is exact:
 * no rounding of the page's floating-point arithmetic is modelled.
 */
module Rotation {

  /** The exact value of the double nearest to 2π. */
  const TwoPi: real := 6.28318530717958623199592693708837032318115234375

  /** The angle one of `n` equal segments spans. */
  function Seg(n: nat): (s: real)
    requires n >= 1
    ensures s > 0.0
    ensures n as real * s == TwoPi
  {
    TwoPi / n as real
  }

  /** The position of `x` on the circle, as an angle in `[0, TwoPi)`. */
  function Angle(x: real): (a: real)
    ensures 0.0 <= a < TwoPi
  {
    x - (x / TwoPi).Floor as real * TwoPi
  }

  /** An angle in `[0, TwoPi)` that differs from `x` by whole turns is
      `Angle(x)`. */
  lemma AngleIs(x: real, z: real, k: int)
    requires 0.0 <= z < TwoPi && x == z + k as real * TwoPi
    ensures Angle(x) == z
  {
    assert x / TwoPi == z / TwoPi + k as real;
    assert (x / TwoPi).Floor == k;
  }

  /** Whole turns do not change the position on the circle. */
  lemma AngleShift(x: real, k: int)
    ensures Angle(x + k as real * TwoPi) == Angle(x)
  {
    var j := (x / TwoPi).Floor;
    AngleIs(x + k as real * TwoPi, Angle(x), j + k);
  }

  /** JavaScript's `a % (2 * Math.PI)`: the remainder of the division
      truncated toward zero, which takes the sign of `a`. */
  function RemTwoPi(a: real): (m: real)
    ensures 0.0 <= a ==> 0.0 <= m < TwoPi
    ensures a < 0.0 ==> -TwoPi < m <= 0.0
    ensures Angle(m) == Angle(a)
  {
    var q := a / TwoPi;
    var t := if q >= 0.0 then q.Floor else -((-q).Floor);
    AngleShift(a, -t);
    a - t as real * TwoPi
  }

  /** The rotation the page's normalisation loop leaves: `r` itself when it
      is at most one turn, otherwise `r` less the whole turns that bring it
      into `(0, TwoPi]`. */
  function Reduced(r: real): (x: real)
    ensures x <= TwoPi
    ensures r > TwoPi ==> 0.0 < x
    ensures r <= TwoPi ==> x == r
    ensures Angle(x) == Angle(r)
  {
    if r <= TwoPi then r
    else
      var k := -((-(r / TwoPi)).Floor) - 1;
      AngleShift(r, -k);
      r - k as real * TwoPi
  }

  /** `Reduced(r)` is the only value that is `r` less `k >= 0` whole turns,
      at most one turn, and positive whenever a turn was removed. */
  lemma ReducedUnique(r: real, x: real, k: int)
    requires k >= 0 && x == r - k as real * TwoPi && x <= TwoPi
    requires k > 0 ==> x > 0.0
    ensures x == Reduced(r)
  {
    if r > TwoPi {
      var q := r / TwoPi;
      var f := (-q).Floor;
      assert Reduced(r) == r - (-f - 1) as real * TwoPi;
      assert k > 0;
      assert x / TwoPi == q - k as real;
      assert 0.0 < x / TwoPi <= 1.0;
      assert f as real <= -q < f as real + 1.0;
      assert k == -f - 1;
    }
  }

  /** `Reduced(r)` is `r` less a whole, non-negative number of turns. */
  lemma ReducedTurns(r: real) returns (k: nat)
    ensures Reduced(r) + k as real * TwoPi == r
  {
    if r <= TwoPi {
      k := 0;
    } else {
      var f := (-(r / TwoPi)).Floor;
      assert r / TwoPi > 1.0;
      assert f <= -2;
      k := -f - 1;
    }
  }

  /** The page's normalisation loop: subtract whole turns while the rotation
      exceeds one turn; `turns` counts them. */
  method Normalize(r: real) returns (x: real, turns: nat)
    ensures x == r - turns as real * TwoPi
    ensures x == Reduced(r)
    ensures r >= 0.0 ==> 0.0 <= x
  {
    x := r;
    turns := 0;
    while x > TwoPi
      invariant x == r - turns as real * TwoPi
      invariant turns > 0 ==> x > 0.0
      decreases (x / TwoPi).Floor
    {
      x := x - TwoPi;
      turns := turns + 1;
    }
    ReducedUnique(r, x, turns);
  }

  /** Multiplying by a positive factor keeps the order. */
  lemma MulLeIff(a: real, b: real, c: real)
    requires c > 0.0
    ensures a * c <= b * c <==> a <= b
    ensures a * c < b * c <==> a < b
  {
  }

  /** Comparing with a multiple of a positive `c` is comparing with a
      quotient by `c`. */
  lemma ScaleIff(a: real, c: real, x: real)
    requires c > 0.0
    ensures x * c <= a <==> x <= a / c
    ensures a < x * c <==> a / c < x
  {
  }

  /** Dividing a sum with a multiple of `c` by `c`. */
  lemma DivAddMul(a: real, b: real, c: real)
    requires c != 0.0
    ensures (a + b * c) / c == a / c + b
  {
  }

  /** `A` lies in the `i`-th of the segments of size `seg` exactly when
      `A / seg` rounds down to `i`. */
  lemma FloorDivIff(A: real, seg: real, i: int)
    requires seg > 0.0
    ensures i as real * seg <= A < (i + 1) as real * seg <==> (A / seg).Floor == i
  {
    ScaleIff(A, seg, i as real);
    ScaleIff(A, seg, (i + 1) as real);
  }

  /** The segment `i` of a wheel of `n` segments turned by `r` is the one
      under the fixed pointer at angle 0: segment `i` is drawn from
      `r + i * Seg(n)` to `r + (i + 1) * Seg(n)`, so the pointer sits at the
      wheel-relative angle `-r`. */
  predicate UnderPointer(i: int, n: nat, r: real)
    requires n >= 1
  {
    i as real * Seg(n) <= Angle(-r) < (i + 1) as real * Seg(n)
  }

  /** JavaScript's `%` on integers: the remainder takes the sign of `a`. */
  function IntRem(a: int, b: int): (m: int)
    requires b > 0
    ensures 0 <= a ==> 0 <= m < b
    ensures a < 0 ==> -b < m <= 0
    ensures 0 <= a ==> m == a % b
  {
    if a >= 0 then a % b else -((-a) % b)
  }

  /** The page's winner formula
      `floor((2π - (r % 2π)) / segmentAngle) % n`. */
  function WinnerIndex(r: real, n: nat): (i: nat)
    requires n >= 1
    ensures i < n
  {
    var u := TwoPi - RemTwoPi(r);
    var q := (u / Seg(n)).Floor;
    assert q >= 0 by {
      assert u > 0.0;
      MulLeIff(0.0, u / Seg(n), Seg(n));
      assert u == (u / Seg(n)) * Seg(n);
    }
    IntRem(q, n)
  }

  /** Every real is its position on the circle plus whole turns. */
  lemma AngleTurns(x: real)
    ensures x == Angle(x) + (x / TwoPi).Floor as real * TwoPi
  {
  }

  /** Two reals at the same place on the circle stay together when both are
      reflected. */
  lemma AngleNeg(x: real, y: real)
    requires Angle(x) == Angle(y)
    ensures Angle(-x) == Angle(-y)
  {
    var kx, ky := (x / TwoPi).Floor, (y / TwoPi).Floor;
    AngleTurns(x);
    AngleTurns(y);
    assert -x == -y + (ky - kx) as real * TwoPi;
    AngleShift(-y, ky - kx);
  }

  /** The page's pointer angle `2π - (r % 2π)` is the wheel-relative angle of
      the pointer, either as it is or one turn further on. */
  lemma PointerAngle(r: real)
    ensures TwoPi - RemTwoPi(r) == Angle(-r) || TwoPi - RemTwoPi(r) == Angle(-r) + TwoPi
  {
    var m := RemTwoPi(r);
    var u := TwoPi - m;
    AngleNeg(m, r);
    assert u == -m + 1 as real * TwoPi;
    AngleShift(-m, 1);
    AngleTurns(u);
    var k := (u / TwoPi).Floor;
    assert 0.0 < u / TwoPi < 2.0;
    assert k == 0 || k == 1;
  }

  /** A product by a non-zero integer is at least `n` away from zero. */
  lemma NonzeroMultiple(d: int, n: int)
    requires n >= 1
    ensures d >= 1 ==> d * n >= n
    ensures d <= -1 ==> d * n <= -n
  {
    assert d * n == (d - 1) * n + n;
    assert d * n == (d + 1) * n - n;
  }

  /** The remainder by `n` is the `m` of any decomposition `q * n + m` with
      `0 <= m < n`. */
  lemma ModUnique(x: int, n: int, q: int, m: int)
    requires n >= 1 && 0 <= m < n && x == q * n + m
    ensures x % n == m
  {
    var q0, m0 := x / n, x % n;
    var d := q - q0;
    assert d * n == m0 - m by {
      assert x == q0 * n + m0;
      assert q * n - q0 * n == (q - q0) * n;
    }
    NonzeroMultiple(d, n);
  }

  /** Adding `n` to an index below `n` leaves its remainder by `n` alone. */
  lemma ModOfIndex(w: int, n: int)
    requires 0 <= w < n
    ensures w % n == w && (w + n) % n == w
  {
    ModUnique(w, n, 0, w);
    ModUnique(w + n, n, 1, w);
  }

  /** The winner formula's segment count, taken from an angle `A` on the
      circle or from `A` one turn further on, reduced by `n`, is the segment
      `A` lies in. */
  lemma SegmentOfPointer(u: real, A: real, n: nat)
    requires n >= 1
    requires 0.0 <= A < TwoPi && (u == A || u == A + TwoPi)
    ensures 0 <= (A / Seg(n)).Floor < n
    ensures (u / Seg(n)).Floor >= 0 && IntRem((u / Seg(n)).Floor, n) == (A / Seg(n)).Floor
  {
    var seg := Seg(n);
    var w := (A / seg).Floor;
    ScaleIff(A, seg, 0.0);
    ScaleIff(A, seg, n as real);
    ModOfIndex(w, n);
    if u != A {
      DivAddMul(A, n as real, seg);
      assert (u / seg).Floor == w + n;
    }
  }

  /** The winner formula reads off the segment that the pointer's
      wheel-relative angle falls in. */
  lemma WinnerFromAngle(r: real, n: nat)
    requires n >= 1
    ensures WinnerIndex(r, n) == (Angle(-r) / Seg(n)).Floor
  {
    PointerAngle(r);
    SegmentOfPointer(TwoPi - RemTwoPi(r), Angle(-r), n);
  }

  /** Segment `i` is under the pointer exactly when the pointer's
      wheel-relative angle rounds down to `i` segments. */
  lemma UnderPointerIff(i: int, n: nat, r: real)
    requires n >= 1
    ensures UnderPointer(i, n, r) <==> i == (Angle(-r) / Seg(n)).Floor
  {
    FloorDivIff(Angle(-r), Seg(n), i);
  }

  /** The winner formula picks exactly the segment under the pointer. */
  lemma WinnerIsUnderPointer(r: real, n: nat, i: int)
    requires n >= 1 && 0 <= i < n
    ensures UnderPointer(i, n, r) <==> i == WinnerIndex(r, n)
  {
    WinnerFromAngle(r, n);
    UnderPointerIff(i, n, r);
  }

  /** The winner depends only on where the wheel stands on the circle. */
  lemma WinnerOfSameAngle(x: real, y: real, n: nat)
    requires n >= 1 && Angle(x) == Angle(y)
    ensures WinnerIndex(x, n) == WinnerIndex(y, n)
  {
    WinnerFromAngle(x, n);
    WinnerFromAngle(y, n);
    AngleNeg(x, y);
  }

  /** Turning the wheel by whole turns does not change the winner. */
  lemma WinnerPeriodic(r: real, k: int, n: nat)
    requires n >= 1
    ensures WinnerIndex(r + k as real * TwoPi, n) == WinnerIndex(r, n)
  {
    AngleShift(r, k);
    WinnerOfSameAngle(r + k as real * TwoPi, r, n);
  }

  /** The normalisation loop does not change the winner. */
  lemma WinnerOfReduced(r: real, n: nat)
    requires n >= 1
    ensures WinnerIndex(Reduced(r), n) == WinnerIndex(r, n)
  {
    WinnerOfSameAngle(Reduced(r), r, n);
  }

  /** A rotation of nothing and a rotation of exactly one turn both put
      segment 0 under the pointer. */
  lemma WinnerAtZeroAndFullTurn(n: nat)
    requires n >= 1
    ensures WinnerIndex(0.0, n) == 0
    ensures WinnerIndex(TwoPi, n) == 0
  {
    assert TwoPi / Seg(n) == n as real;
    assert RemTwoPi(0.0) == 0.0;
    assert RemTwoPi(TwoPi) == 0.0 by {
      assert TwoPi / TwoPi == 1.0;
    }
  }

  /** Stepping back by one segment from segment `w >= 1` lands in segment
      `w - 1`. */
  lemma PreviousSegment(A: real, seg: real, w: int)
    requires seg > 0.0 && 0.0 <= A < TwoPi && w == (A / seg).Floor && w >= 1
    ensures 0.0 <= A - seg < TwoPi && ((A - seg) / seg).Floor == w - 1
  {
    ScaleIff(A, seg, 1.0);
    DivAddMul(A, -1.0, seg);
  }

  /** Stepping back by one segment from segment 0 wraps round to segment
      `n - 1`. */
  lemma WrapToLastSegment(A: real, seg: real, n: nat)
    requires n >= 1 && seg > 0.0 && n as real * seg == TwoPi
    requires 0.0 <= A < TwoPi && (A / seg).Floor == 0
    ensures 0.0 <= A - seg + TwoPi < TwoPi && ((A - seg + TwoPi) / seg).Floor == n - 1
  {
    ScaleIff(A, seg, 1.0);
    MulLeIff(1.0, n as real, seg);
    assert A - seg + TwoPi == A + (n - 1) as real * seg;
    DivAddMul(A, (n - 1) as real, seg);
  }

  /** Moving a point back by `d` moves its position on the circle back by
      `d`, up to whole turns. */
  lemma AngleMinus(x: real, d: real)
    ensures Angle(x - d) == Angle(Angle(x) - d)
  {
    AngleTurns(x);
    var k := (x / TwoPi).Floor;
    assert x - d == (Angle(x) - d) + k as real * TwoPi;
    AngleShift(Angle(x) - d, k);
  }

  /** Stepping an angle on the circle back by one segment of size `seg`
      lands in the previous segment, cyclically. */
  lemma StepBackBy(A: real, seg: real, n: nat)
    requires n >= 1 && seg > 0.0 && n as real * seg == TwoPi
    requires 0.0 <= A < TwoPi
    ensures (Angle(A - seg) / seg).Floor == ((A / seg).Floor + n - 1) % n
  {
    var w := (A / seg).Floor;
    ScaleIff(A, seg, 0.0);
    ScaleIff(A, seg, n as real);
    if w >= 1 {
      PreviousSegment(A, seg, w);
      AngleIs(A - seg, A - seg, 0);
      ModOfIndex(w - 1, n);
    } else {
      WrapToLastSegment(A, seg, n);
      AngleIs(A - seg, A - seg + TwoPi, -1);
      ModOfIndex(n - 1, n);
    }
  }

  /** Stepping an angle on the circle back by one of `n` segments lands in
      the previous segment, cyclically. */
  lemma StepBackSegment(A: real, n: nat)
    requires n >= 1 && 0.0 <= A < TwoPi
    ensures (Angle(A - Seg(n)) / Seg(n)).Floor == ((A / Seg(n)).Floor + n - 1) % n
  {
    StepBackBy(A, Seg(n), n);
  }

  /** Turning the wheel forward by one segment turns the pointer's
      wheel-relative angle back by one segment. */
  lemma PointerStepsBack(r: real, n: nat, w0: int, w1: int)
    requires n >= 1
    requires w0 == (Angle(-r) / Seg(n)).Floor
    requires w1 == (Angle(-(r + Seg(n))) / Seg(n)).Floor
    ensures w1 == (w0 + n - 1) % n
  {
    AngleMinus(-r, Seg(n));
    assert -(r + Seg(n)) == -r - Seg(n);
    StepBackSegment(Angle(-r), n);
  }

  /** Turning the wheel forward by one segment moves the winner back by one
      segment, cyclically. */
  lemma WinnerShift(r: real, n: nat)
    requires n >= 1
    ensures WinnerIndex(r + Seg(n), n) == (WinnerIndex(r, n) + n - 1) % n
  {
    WinnerFromAngle(r, n);
    WinnerFromAngle(r + Seg(n), n);
    PointerStepsBack(r, n, WinnerIndex(r, n), WinnerIndex(r + Seg(n), n));
  }

  /** Counting back one from a remainder by `n` is the remainder of counting
      back one. */
  lemma ModPred(x: int, n: int)
    requires n >= 1
    ensures (x % n + n - 1) % n == (x - 1) % n
  {
    var q, m := x / n, x % n;
    assert x == q * n + m;
    if m >= 1 {
      ModUnique(m + n - 1, n, 1, m - 1);
      ModUnique(x - 1, n, q, m - 1);
    } else {
      ModUnique(n - 1, n, 0, n - 1);
      assert (q - 1) * n == q * n - n;
      ModUnique(x - 1, n, q - 1, n - 1);
    }
  }

  /** `s - 1` steps of size `seg` and one more make `s` steps. */
  lemma OneMoreStep(r: real, seg: real, s: int)
    ensures r + (s - 1) as real * seg + seg == r + s as real * seg
  {
  }

  /** `s` segments laid end to end, added up one at a time. */
  function Steps(s: nat, n: nat): real
    requires n >= 1
  {
    if s == 0 then 0.0 else Steps(s - 1, n) + Seg(n)
  }

  lemma {:induction false} StepsIsProduct(s: nat, n: nat)
    requires n >= 1
    ensures Steps(s, n) == s as real * Seg(n)
  {
    if s > 0 {
      StepsIsProduct(s - 1, n);
      OneMoreStep(0.0, Seg(n), s);
    }
  }

  /** One more segment forward, one more segment back for the winner. */
  lemma ShiftStep(x: real, n: nat, k: int)
    requires n >= 1 && WinnerIndex(x, n) == k % n
    ensures WinnerIndex(x + Seg(n), n) == (k - 1) % n
  {
    WinnerShift(x, n);
    ModPred(k, n);
  }

  lemma {:induction false} WinnerShiftSteps(r: real, n: nat, s: nat)
    requires n >= 1
    ensures WinnerIndex(r + Steps(s, n), n) == (WinnerIndex(r, n) - s) % n
  {
    if s == 0 {
      assert r + Steps(s, n) == r;
      ModOfIndex(WinnerIndex(r, n), n);
    } else {
      WinnerShiftSteps(r, n, s - 1);
      assert r + Steps(s, n) == r + Steps(s - 1, n) + Seg(n);
      ShiftStep(r + Steps(s - 1, n), n, WinnerIndex(r, n) - (s - 1));
    }
  }

  /** Turning the wheel forward by `s` whole segments moves the winner back by
      `s` segments, cyclically. */
  lemma WinnerShiftBy(r: real, n: nat, s: nat)
    requires n >= 1
    ensures WinnerIndex(r + s as real * Seg(n), n) == (WinnerIndex(r, n) - s) % n
  {
    WinnerShiftSteps(r, n, s);
    StepsIsProduct(s, n);
  }

  /** An angle in the last segment's span reads as segment `n - 1`. */
  lemma LastSegment(A: real, seg: real, n: nat)
    requires n >= 1 && seg > 0.0 && n as real * seg == TwoPi
    requires TwoPi - seg <= A < TwoPi
    ensures (A / seg).Floor == n - 1
  {
    assert (n - 1) as real * seg == TwoPi - seg;
    FloorDivIff(A, seg, n - 1);
  }

  /** No segment is wider than the whole circle. */
  lemma SegAtMostTurn(n: nat)
    requires n >= 1
    ensures Seg(n) <= TwoPi
  {
    MulLeIff(1.0, n as real, Seg(n));
  }

  /** Turned back by less than one segment, but not by nothing, the pointer
      falls in the last segment. */
  lemma SmallTurnAngle(a: real, n: nat, seg: real)
    requires n >= 1 && seg == Seg(n) && 0.0 < a < seg
    ensures (Angle(-a) / seg).Floor == n - 1
  {
    SegAtMostTurn(n);
    AngleIs(-a, TwoPi - a, -1);
    LastSegment(TwoPi - a, seg, n);
  }

  /** A wheel turned forward by less than one segment, but not by nothing,
      has its last segment under the pointer. */
  lemma WinnerOfSmallTurn(a: real, n: nat)
    requires n >= 1 && 0.0 < a < Seg(n)
    ensures WinnerIndex(a, n) == n - 1
  {
    WinnerFromAngle(a, n);
    SmallTurnAngle(a, n, Seg(n));
  }

  /** `easeOut(t) = 1 - (1 - t)^3`, the page's deceleration curve. */
  function EaseOut(t: real): (e: real)
    ensures 0.0 <= t <= 1.0 ==> 0.0 <= e <= 1.0
    ensures t == 0.0 ==> e == 0.0
    ensures e == 1.0 <==> t == 1.0
  {
    var d := 1.0 - t;
    assert 0.0 <= d <= 1.0 ==> 0.0 <= d * d <= 1.0 && 0.0 <= d * d * d <= 1.0 by {
      if 0.0 < d <= 1.0 {
        MulLeIff(d, 1.0, d);
        MulLeIff(d * d, 1.0, d);
        MulLeIff(0.0, d * d, d);
      }
    }
    assert d * d * d == 0.0 ==> d == 0.0;
    1.0 - d * d * d
  }

  /** The curve never goes back: a later time is at least as far along. */
  lemma EaseOutMonotone(t1: real, t2: real)
    requires 0.0 <= t1 <= t2 <= 1.0
    ensures EaseOut(t1) <= EaseOut(t2)
  {
    var d1, d2 := 1.0 - t1, 1.0 - t2;
    var g := d1 * d1 + d1 * d2 + d2 * d2;
    assert d1 * d1 * d1 - d2 * d2 * d2 == (d1 - d2) * g;
    assert g >= 0.0 by {
      if d1 > 0.0 {
        MulLeIff(0.0, d1, d1);
        MulLeIff(0.0, d2, d1);
      }
      if d2 > 0.0 {
        MulLeIff(0.0, d2, d2);
      }
    }
    assert (d1 - d2) * g >= 0.0;
  }

  /** `Math.min(elapsed / duration, 1)`. */
  function Progress(elapsed: int, duration: real): (p: real)
    requires duration > 0.0
    ensures p <= 1.0
    ensures p == 1.0 <==> elapsed as real >= duration
    ensures elapsed >= 0 ==> 0.0 <= p
    ensures p < 1.0 ==> p * duration == elapsed as real
  {
    var q := elapsed as real / duration;
    assert q >= 1.0 <==> elapsed as real >= duration by {
      assert elapsed as real == q * duration;
      MulLeIff(1.0, q, duration);
    }
    assert elapsed >= 0 ==> q >= 0.0 by {
      assert elapsed as real == q * duration;
      MulLeIff(0.0, q, duration);
    }
    if q < 1.0 then q else 1.0
  }

  /** Dividing by a positive amount keeps the order. */
  lemma DivMonotone(a: real, b: real, c: real)
    requires c > 0.0 && a <= b
    ensures a / c <= b / c
  {
    MulLeIff(a / c, b / c, c);
    assert (a / c) * c == a && (b / c) * c == b;
  }

  /** More time elapsed means at least as much progress. */
  lemma ProgressMonotone(e1: int, e2: int, duration: real)
    requires duration > 0.0 && e1 <= e2
    ensures Progress(e1, duration) <= Progress(e2, duration)
  {
    var q1, q2 := e1 as real / duration, e2 as real / duration;
    DivMonotone(e1 as real, e2 as real, duration);
    assert Progress(e1, duration) == if q1 < 1.0 then q1 else 1.0;
    assert Progress(e2, duration) == if q2 < 1.0 then q2 else 1.0;
  }

  /** One frame's step from the current rotation toward the target, a
      fraction `e` of the remaining way. */
  function Step(current: real, target: real, e: real): (x: real)
    ensures current <= target && 0.0 <= e <= 1.0 ==> current <= x <= target
    ensures e == 1.0 ==> x == target
    ensures e == 0.0 ==> x == current
  {
    var d := target - current;
    FractionBounds(d, e);
    current + d * e
  }

  /** Toward a target ahead, a larger fraction steps at least as far. */
  lemma StepMonotone(current: real, target: real, e1: real, e2: real)
    requires current <= target && e1 <= e2
    ensures Step(current, target, e1) <= Step(current, target, e2)
  {
    var d := target - current;
    assert Step(current, target, e1) == current + d * e1;
    assert Step(current, target, e2) == current + d * e2;
    if d == 0.0 {
      assert d * e1 == 0.0 && d * e2 == 0.0;
    } else {
      MulLeIff(e1, e2, d);
      assert d * e1 == e1 * d && d * e2 == e2 * d;
    }
  }

  /** A fraction of a non-negative amount lies between nothing and all of it. */
  lemma FractionBounds(c: real, e: real)
    ensures c >= 0.0 && 0.0 <= e <= 1.0 ==> 0.0 <= c * e <= c
  {
    if c > 0.0 && 0.0 <= e <= 1.0 {
      MulLeIff(0.0, e, c);
      MulLeIff(e, 1.0, c);
      assert c * e == e * c;
    } else if c == 0.0 {
      assert c * e == 0.0;
    }
  }

  /** A fraction below one of a positive amount lies below the amount. */
  lemma FractionBelow(c: real, e: real)
    ensures c > 0.0 && 0.0 <= e < 1.0 ==> 0.0 <= e * c < c
  {
    if c > 0.0 && 0.0 <= e < 1.0 {
      MulLeIff(0.0, e, c);
      MulLeIff(e, 1.0, c);
    }
  }
}
