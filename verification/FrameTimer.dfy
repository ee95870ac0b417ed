// The adaptive frame timer of the target-FPS loop
// (libs/model/src/model/server_loop.cpp). Durations are whole nanoseconds; the
// doubles are real numbers; the exponential is a parameter.
module FrameTimer {

  // What the timer needs of the exponential: 1 at 0, in (0, 1] up to there.
  ghost predicate IsExp(exp: real -> real) {
    exp(0.0) == 1.0 && forall x: real :: x <= 0.0 ==> 0.0 < exp(x) <= 1.0
  }

  // Integer division that truncates toward zero.
  function Div(a: int, b: int): int
    requires b != 0
  {
    if (a >= 0) == (b > 0) then Abs(a) / Abs(b) else -(Abs(a) / Abs(b))
  }

  function Abs(a: int): nat {
    if a < 0 then -a else a
  }

  // duration_cast to whole nanoseconds, toward zero.
  function Truncate(x: real): int {
    if x >= 0.0 then x.Floor else -((-x).Floor)
  }

  // calculate_adaptive_smoothing_coefficient
  function Coefficient(exp: real -> real, duration: int, average: int): real {
    if average == 0 then 1.0
    else 1.0 + (0.1 - 1.0) * exp(-(Abs(Div(duration - average, average)) as real))
  }

  // The moving average after one frame.
  function Update(exp: real -> real, duration: int, average: int): int {
    Mix(Coefficient(exp, duration, average), duration, average)
  }

  function Mix(alpha: real, duration: int, average: int): int {
    Truncate(alpha * (duration as real) + (1.0 - alpha) * (average as real))
  }

  // The time slept before the next frame; the floor is 1 ns on Linux.
  function Sleep(target: nat, average: int): int {
    if target - average > 1 then target - average else 1
  }

  // 1.015 times the wanted rate, truncated, as a whole number of ns per frame.
  function TargetSleep(fps: int): nat
    requires 0 < fps
  {
    1_000_000_000 / (fps * 1015 / 1000)
  }

  function Averages(exp: real -> real, durations: seq<int>, average: int): int {
    if durations == [] then average
    else
      Update(exp, durations[|durations| - 1], Averages(exp, durations[..|durations| - 1], average))
  }

  // The loop, given how long each frame's overhead takes.
  method Run(exp: real -> real, fps: int, durations: seq<int>) returns (average: int, sleeps: seq<int>)
    requires 0 < fps
    ensures average == Averages(exp, durations, 0)
    ensures |sleeps| == |durations|
    ensures forall i :: 0 <= i < |sleeps| ==> sleeps[i] == Sleep(TargetSleep(fps), Averages(exp, durations[..i], 0))
  {
    var targetSleep := 1_000_000_000 / (fps * 1015 / 1000);
    average := 0;
    sleeps := [];
    for i := 0 to |durations|
      invariant average == Averages(exp, durations[..i], 0)
      invariant |sleeps| == i
      invariant forall j :: 0 <= j < i ==> sleeps[j] == Sleep(targetSleep, Averages(exp, durations[..j], 0))
    {
      var sleep := if targetSleep - average > 1 then targetSleep - average else 1;
      sleeps := sleeps + [sleep];
      assert durations[..i + 1][..i] == durations[..i];
      average := Update(exp, durations[i], average);
    }
    assert durations[..|durations|] == durations;
  }

  // ---- one update ---------------------------------------------------------

  lemma CoefficientRange(exp: real -> real, d: int, a: int)
    requires IsExp(exp)
    ensures 0.1 <= Coefficient(exp, d, a) <= 1.0
    ensures 0 < d < 2 * a ==> Coefficient(exp, d, a) == 0.1
  {
    if a != 0 {
      var q := Abs(Div(d - a, a));
      var e := exp(-(q as real));
      assert 0.0 < e <= 1.0;
      if 0 < d < 2 * a {
        DivSmall(Abs(d - a), a);
      }
    }
  }

  // The quotient is an integer one: it vanishes while the change is smaller
  // than the average itself.
  lemma DivSmall(x: nat, a: nat)
    requires x < a
    ensures x / a == 0
  {}

  function Times(x: real, y: real): real {
    x * y
  }

  lemma TimesNonNegative(x: real, y: real)
    requires 0.0 <= x && 0.0 <= y
    ensures 0.0 <= Times(x, y)
  {}

  lemma TimesSplit(u: real, v: real, y: real)
    ensures Times(v, y) == Times(u, y) + Times(v - u, y)
  {}

  lemma Scale(alpha: real, y: real)
    requires 0.1 <= alpha <= 1.0 && 0.0 <= y
    ensures 0.1 * y <= Times(alpha, y) <= y
  {
    TimesSplit(0.1, alpha, y);
    TimesSplit(alpha, 1.0, y);
    TimesNonNegative(alpha - 0.1, y);
    TimesNonNegative(1.0 - alpha, y);
  }

  lemma Distribute(alpha: real, d: real, a: real)
    ensures alpha * d + (1.0 - alpha) * a == a + Times(alpha, d - a)
    ensures alpha * d + (1.0 - alpha) * a == a - Times(alpha, a - d)
  {}

  // The blend moves by p from the average toward the duration.
  lemma Blend(alpha: real, d: real, a: real) returns (p: real)
    requires 0.1 <= alpha <= 1.0
    ensures alpha * d + (1.0 - alpha) * a == a + p
    ensures a <= d ==> 0.1 * (d - a) <= p <= d - a
    ensures d <= a ==> d - a <= p <= 0.1 * (d - a)
  {
    Distribute(alpha, d, a);
    if a <= d {
      p := Times(alpha, d - a);
      Scale(alpha, d - a);
    } else {
      p := -Times(alpha, a - d);
      Scale(alpha, a - d);
    }
  }

  // Where one update lands, to the nanosecond.
  lemma UpdateLands(exp: real -> real, d: int, a: int)
    requires IsExp(exp) && 0 <= d && 0 <= a
    ensures var u := Update(exp, d, a);
            (a <= d ==> a <= u <= d && 10 * (u + 1) > 9 * a + d) &&
            (d <= a ==> d <= u && 10 * u <= 9 * a + d)
  {
    CoefficientRange(exp, d, a);
    MixLands(Coefficient(exp, d, a), d, a);
  }

  lemma MixLands(alpha: real, d: int, a: int)
    requires 0.1 <= alpha <= 1.0 && 0 <= d && 0 <= a
    ensures var u := Mix(alpha, d, a);
            (a <= d ==> a <= u <= d && 10 * (u + 1) > 9 * a + d) &&
            (d <= a ==> d <= u && 10 * u <= 9 * a + d)
  {
    var p := Blend(alpha, d as real, a as real);
    var x := alpha * (d as real) + (1.0 - alpha) * (a as real);
    assert Mix(alpha, d, a) == Truncate(x);
    TruncateLands(d, a, p, x);
  }

  lemma TruncateLands(d: int, a: int, p: real, x: real)
    requires 0 <= d && 0 <= a && x == a as real + p
    requires a <= d ==> 0.1 * (d - a) as real <= p <= (d - a) as real
    requires d <= a ==> (d - a) as real <= p <= 0.1 * (d - a) as real
    ensures var u := Truncate(x);
            (a <= d ==> a <= u <= d && 10 * (u + 1) > 9 * a + d) &&
            (d <= a ==> d <= u && 10 * u <= 9 * a + d)
  {
    var u := Truncate(x);
    assert u as real <= x < (u + 1) as real;
    if a <= d {
      assert (9 * a + d) as real <= 10.0 * x;
    }
    if d <= a {
      assert 10.0 * x <= (9 * a + d) as real;
    }
  }

  // Between the old average and the new duration.
  lemma UpdateBetween(exp: real -> real, d: int, a: int)
    requires IsExp(exp) && 0 <= d && 0 <= a
    ensures (if a < d then a else d) <= Update(exp, d, a) <= (if a < d then d else a)
  {
    UpdateLands(exp, d, a);
  }

  // The distance to a constant duration strictly shrinks from above, and from
  // below while it is 10 ns or more; on either side by a tenth.
  lemma UpdateShrinks(exp: real -> real, d: int, a: int)
    requires IsExp(exp) && 0 <= d && 0 <= a
    ensures var u := Update(exp, d, a);
            (a > d ==> d <= u < a && 10 * (u - d) <= 9 * (a - d)) &&
            (a <= d ==> a <= u <= d && 10 * (d - u) <= 9 * (d - a) + 9) &&
            (d - a >= 10 ==> a < u)
  {
    UpdateLands(exp, d, a);
  }

  // An average stays exactly when it is not above the overhead and its step
  // toward it is below 1 ns. From 10 ns on, or above half the overhead, that
  // is a distance of at most 9 ns; at 0 there is no distance.
  lemma UpdateFixedExactly(exp: real -> real, d: int, a: int)
    requires IsExp(exp) && 0 <= d && 0 <= a
    ensures Update(exp, d, a) == a <==> a <= d && Times(Coefficient(exp, d, a), (d - a) as real) < 1.0
    ensures 10 <= a || d < 2 * a ==> (Update(exp, d, a) == a <==> d - 9 <= a <= d)
    ensures a == 0 ==> (Update(exp, d, a) == a <==> d == 0)
  {
    UpdateShrinks(exp, d, a);
    CoefficientRange(exp, d, a);
    if a <= d {
      MixFixed(Coefficient(exp, d, a), d, a);
    }
  }

  lemma MixFixed(alpha: real, d: int, a: int)
    requires 0.1 <= alpha <= 1.0 && 0 <= a <= d
    ensures Mix(alpha, d, a) == a <==> Times(alpha, (d - a) as real) < 1.0
    ensures alpha == 0.1 ==> (Times(alpha, (d - a) as real) < 1.0 <==> d - 9 <= a)
    ensures alpha == 1.0 ==> (Times(alpha, (d - a) as real) < 1.0 <==> d == a)
    ensures Times(alpha, (d - a) as real) < 1.0 ==> d - 9 <= a
  {
    var p := Times(alpha, (d - a) as real);
    Distribute(alpha, d as real, a as real);
    Scale(alpha, (d - a) as real);
    assert Mix(alpha, d, a) == Truncate(a as real + p);
  }

  // The coefficient at every quotient k, for durations on either side.
  lemma CoefficientExactly(exp: real -> real, d: int, a: int, k: nat)
    requires 0 < a && k * a <= Abs(d - a) < (k + 1) * a
    ensures Coefficient(exp, d, a) == 1.0 - 0.9 * exp(-(k as real))
  {
    QuotientIs(Abs(d - a), a, k);
  }

  lemma QuotientIs(x: nat, a: nat, k: nat)
    requires k * a <= x < (k + 1) * a
    ensures x / a == k
  {
    Quotient(x, a);
    var q := x / a;
    if q < k {
      Product(q + 1, k, a, a);
    } else if k < q {
      Product(k + 1, q, a, a);
    }
  }

  // The first overhead is taken as it is.
  lemma UpdateFromZero(exp: real -> real, d: int)
    requires 0 <= d
    ensures Update(exp, d, 0) == d
  {
    assert 1.0 * (d as real) + (1.0 - 1.0) * (0 as real) == d as real;
  }

  // The update is the blend itself, rounded down.
  lemma UpdateRounds(exp: real -> real, d: int, a: int)
    requires IsExp(exp) && 0 <= d && 0 <= a
    ensures var x := a as real + Times(Coefficient(exp, d, a), (d - a) as real);
            Update(exp, d, a) as real <= x < (Update(exp, d, a) + 1) as real
  {
    CoefficientRange(exp, d, a);
    MixRounds(Coefficient(exp, d, a), d, a);
  }

  lemma MixRounds(alpha: real, d: int, a: int)
    requires 0.1 <= alpha <= 1.0 && 0 <= d && 0 <= a
    ensures var x := a as real + Times(alpha, (d - a) as real);
            Mix(alpha, d, a) as real <= x < (Mix(alpha, d, a) + 1) as real
  {
    var p := Blend(alpha, d as real, a as real);
    Distribute(alpha, d as real, a as real);
    assert alpha * (d as real) + (1.0 - alpha) * (a as real) >= 0.0;
  }

  ghost predicate Grows(exp: real -> real) {
    forall x: real, y: real :: x <= y ==> exp(x) <= exp(y)
  }

  // What the coefficient is for: the larger an overhead is against the average,
  // the more of the way the average goes at once.
  lemma UpdateAdapts(exp: real -> real, d: int, a: int, k: nat)
    requires IsExp(exp) && Grows(exp) && 0 < a && (k + 1) * a <= d
    ensures a as real + Times(1.0 - 0.9 * exp(-(k as real)), (d - a) as real) < (Update(exp, d, a) + 1) as real
  {
    var q := (d - a) / a;
    Quotient(d - a, a);
    if q < k {
      Product(q + 1, k, a, a);
    }
    CoefficientExactly(exp, d, a, q);
    UpdateRounds(exp, d, a);
    var least, alpha, x := 1.0 - 0.9 * exp(-(k as real)), Coefficient(exp, d, a), (d - a) as real;
    assert least <= alpha;
    TimesSplit(least, alpha, x);
    TimesNonNegative(alpha - least, x);
  }

  // ---- runs ---------------------------------------------------------------

  function Largest(durations: seq<int>): int {
    if durations == [] then 0
    else
      var m := Largest(durations[..|durations| - 1]);
      if durations[|durations| - 1] > m then durations[|durations| - 1] else m
  }

  // The average never leaves 0 and the largest overhead seen.
  lemma {:induction false} AveragesBounded(exp: real -> real, durations: seq<int>)
    requires IsExp(exp) && forall i :: 0 <= i < |durations| ==> 0 <= durations[i]
    ensures 0 <= Averages(exp, durations, 0) <= Largest(durations)
  {
    if durations != [] {
      var init, d := durations[..|durations| - 1], durations[|durations| - 1];
      AveragesBounded(exp, init);
      UpdateBetween(exp, d, Averages(exp, init, 0));
    }
  }

  // Every sleep of every run lies between 1 ns and the target.
  lemma SleepBounded(exp: real -> real, durations: seq<int>, target: nat)
    requires IsExp(exp) && forall i :: 0 <= i < |durations| ==> 0 <= durations[i]
    ensures 1 <= Sleep(target, Averages(exp, durations, 0)) <= Max(1, target)
  {
    AveragesBounded(exp, durations);
  }

  // n frames of the same overhead.
  function Steady(exp: real -> real, d: int, average: int, n: nat): int {
    if n == 0 then average else Update(exp, d, Steady(exp, d, average, n - 1))
  }

  // From above the average reaches the overhead exactly; from below it comes
  // within 9 ns; and it never crosses over.
  lemma {:induction false} Settles(exp: real -> real, d: int, average: int, n: nat)
    requires IsExp(exp) && 0 <= d && 0 <= average
    ensures var a := Steady(exp, d, average, n);
            (d <= average ==> d <= a <= average && (n >= average - d ==> a == d) && a - d <= Max(average - d - n, 0)) &&
            (average <= d ==>
               average <= a <= d && (n >= d - average ==> d - 9 <= a) && d - a <= Max(d - average - n, 9))
  {
    if n > 0 {
      Settles(exp, d, average, n - 1);
      UpdateShrinks(exp, d, Steady(exp, d, average, n - 1));
    }
  }

  function Pow(b: nat, n: nat): nat {
    if n == 0 then 1 else b * Pow(b, n - 1)
  }

  // What is more than 9 ns of the distance falls by a tenth with every frame.
  lemma {:induction false} SettlesFast(exp: real -> real, d: int, average: int, n: nat, m: nat)
    requires IsExp(exp) && 0 <= d && 0 <= average && Abs(average - d) - 9 <= m
    ensures var a := Steady(exp, d, average, n);
            0 <= a && Pow(10, n) * (Abs(a - d) - 9) <= Pow(9, n) * m &&
            (Pow(9, n) * m < Pow(10, n) ==> Abs(a - d) <= 9)
  {
    var e := Abs(Steady(exp, d, average, n) - d) - 9;
    if n > 0 {
      var a := Steady(exp, d, average, n - 1);
      SettlesFast(exp, d, average, n - 1, m);
      UpdateShrinks(exp, d, a);
      TenthLess(n, m, Abs(a - d) - 9, e);
    }
    Below(Pow(10, n), e);
  }

  lemma TenthLess(n: nat, m: nat, e: int, e': int)
    requires 0 < n && Pow(10, n - 1) * e <= Pow(9, n - 1) * m && 10 * e' <= 9 * e
    ensures Pow(10, n) * e' <= Pow(9, n) * m
  {
    var x, y := Pow(10, n - 1), Pow(9, n - 1);
    ProductLe(x, 10 * e', 9 * e);
    Reorder(x, 10, e');
    Reorder(x, 9, e);
    Reorder(m, 9, y);
  }

  lemma Reorder(x: int, k: int, y: int)
    ensures x * (k * y) == k * (x * y) == k * x * y
  {}

  lemma ProductLe(x: nat, a: int, b: int)
    requires a <= b
    ensures x * a <= x * b
  {
    assert x * b - x * a == x * (b - a);
  }

  lemma Below(x: nat, e: int)
    ensures x * e < x ==> e <= 0
  {
    if e > 0 {
      ProductLe(x, 1, e);
    }
  }

  // From above the whole distance falls by a tenth with every frame.
  lemma {:induction false} FallsFast(exp: real -> real, d: int, average: int, n: nat)
    requires IsExp(exp) && 0 <= d <= average
    ensures var a := Steady(exp, d, average, n);
            d <= a && Pow(10, n) * (a - d) <= Pow(9, n) * (average - d)
  {
    if n > 0 {
      var a := Steady(exp, d, average, n - 1);
      FallsFast(exp, d, average, n - 1);
      UpdateShrinks(exp, d, a);
      TenthLess(n, average - d, a - d, Steady(exp, d, average, n) - d);
    }
  }

  // Enough frames to settle from a distance: geometrically few of a long one,
  // or one for every ns of a short one.
  predicate Enough(n: nat, distance: nat) {
    n >= distance || Pow(9, n) * distance < Pow(10, n)
  }

  lemma SettlesEnough(exp: real -> real, d: int, average: int, n: nat)
    requires IsExp(exp) && 0 <= d && 0 <= average && Enough(n, Abs(average - d))
    ensures d - 9 <= Steady(exp, d, average, n) <= d
  {
    Settles(exp, d, average, n);
    if n < Abs(average - d) {
      if d <= average {
        FallsFast(exp, d, average, n);
        Below(Pow(10, n), Steady(exp, d, average, n) - d);
      } else {
        SettlesFast(exp, d, average, n, Abs(average - d));
      }
    }
  }

  // Then every frame takes its target time, to within 9 ns.
  lemma SettledPeriod(exp: real -> real, target: nat, d: int, average: int, n: nat)
    requires IsExp(exp) && 0 <= d <= target - 1 && 0 <= average && Enough(n, Abs(average - d))
    ensures target <= Sleep(target, Steady(exp, d, average, n)) + d <= target + 9
  {
    SettlesEnough(exp, d, average, n);
  }

  // An overhead of 9 ns more than the target, or above, leaves the shortest
  // sleep instead.
  lemma OverloadedSleep(exp: real -> real, target: nat, d: int, average: int, n: nat)
    requires IsExp(exp) && target + 9 <= d && 0 <= average && Enough(n, Abs(average - d))
    ensures Sleep(target, Steady(exp, d, average, n)) == 1
  {
    SettlesEnough(exp, d, average, n);
  }

  function Max(a: int, b: int): int {
    if a < b then b else a
  }

  // The loop's run is such a run once the overhead is constant.
  lemma {:induction false} AveragesSteady(exp: real -> real, durations: seq<int>, d: int, n: nat)
    ensures Averages(exp, durations + seq(n, _ => d), 0) == Steady(exp, d, Averages(exp, durations, 0), n)
  {
    var all := durations + seq(n, _ => d);
    if n == 0 {
      assert all == durations;
    } else {
      AveragesSteady(exp, durations, d, n - 1);
      assert all[..|all| - 1] == durations + seq(n - 1, _ => d);
    }
  }

  // The target is the longest that 1.015 times the rate, less its fraction,
  // leaves room for.
  lemma TargetExactly(fps: int, rate: nat)
    requires 0 < fps && 1000 * rate <= 1015 * fps < 1000 * (rate + 1)
    ensures TargetSleep(fps) * rate <= 1_000_000_000 < (TargetSleep(fps) + 1) * rate
  {
    assert rate == fps * 1015 / 1000;
    Quotient(1_000_000_000, rate);
  }

  // What the factor 1.015 is for: up to 1,644,736 frames per second, sleep and
  // overhead of a settled frame, which may exceed the target by 9 ns, fit into
  // the time the wanted rate allows exactly from 67 on.
  lemma SettledRate(fps: int)
    requires 0 < fps <= 1_644_736
    ensures (TargetSleep(fps) + 9) * fps <= 1_000_000_000 <==> 67 <= fps
  {
    var rate, extra, target := fps * 1015 / 1000, fps * 15 / 1000, TargetSleep(fps);
    assert rate == fps + extra;
    Quotient(1_000_000_000, rate);
    if fps < 67 {
      Sum(fps, target, 9, target + 9);
    } else if fps <= 500_000 {
      LongSleep(rate);
      RateFits(fps, extra, target, rate, 1200);
    } else if 601 <= target {
      RateFits(fps, extra, target, rate, 601);
    } else {
      FastRate(fps, target, rate);
    }
  }

  // Just above that the time no longer suffices.
  lemma TooFast()
    ensures (TargetSleep(1_644_737) + 9) * 1_644_737 > 1_000_000_000
  {
    assert 1_644_737 * 1015 / 1000 == 1_669_408;
    Quotient(1_000_000_000, 1_669_408);
  }

  lemma FastRate(fps: nat, target: nat, rate: nat)
    requires 0 < fps <= 1_644_736 && rate == fps * 1015 / 1000 && target < 601
    requires target * rate <= 1_000_000_000 < (target + 1) * rate
    ensures (target + 9) * fps <= 1_000_000_000
  {
    if target < 599 {
      Product(target + 1, 599, rate, 1_669_407);
    } else {
      assert target == 599 || target == 600;
    }
  }

  lemma RateFits(fps: nat, extra: nat, target: nat, rate: nat, least: nat)
    requires rate == fps + extra && target * rate <= 1_000_000_000
    requires least <= target && 9 * fps <= least * extra
    ensures (target + 9) * fps <= 1_000_000_000
  {
    Product(least, target, extra, extra);
    Sum(target, fps, extra, rate);
    Sum(fps, target, 9, target + 9);
  }

  lemma Sum(x: nat, a: nat, b: nat, c: nat)
    requires c == a + b
    ensures x * c == x * a + x * b
  {}

  lemma LongSleep(rate: nat)
    requires 0 < rate <= 507_500
    ensures 1200 <= 1_000_000_000 / rate
  {
    var target := 1_000_000_000 / rate;
    Quotient(1_000_000_000, rate);
    if target < 1200 {
      Product(target + 1, 1200, rate, 507_500);
    }
  }

  lemma Quotient(a: nat, b: nat)
    requires 0 < b
    ensures a / b * b <= a < (a / b + 1) * b
  {}

  lemma Product(a: nat, b: nat, c: nat, d: nat)
    requires a <= b && c <= d
    ensures a * c <= b * d
  {}
}
