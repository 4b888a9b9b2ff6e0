/** The layered quota pressure of a credential (`calcCodexScore`), over the reals. */
module QuotaScore {
  import opened Prelude

  const MAX_PRESSURE: real := 10.0
  const EPSILON: real := 0.000001
  const MONTH_SECONDS: int := 2592000

  function Min(a: real, b: real): real {
    if a <= b then a else b
  }

  function Max(a: real, b: real): real {
    if a >= b then a else b
  }

  /** The share of the window that is still to come. */
  function RemainingFraction(resetAt: Option<real>, now: real, windowSeconds: int): (f: real)
    ensures 0.0 < f <= 1.0
  {
    if resetAt.None? || windowSeconds <= 0 then 1.0
    else
      var remaining := resetAt.value - now;
      if remaining <= 0.0 then EPSILON
      else if remaining < windowSeconds as real then
        Fraction(remaining, windowSeconds as real);
        Max(remaining / windowSeconds as real, EPSILON)
      else 1.0
  }

  lemma Fraction(a: real, b: real)
    requires 0.0 < a < b
    ensures 0.0 < a / b < 1.0
  {
    var q := a / b;
    assert q * b == a;
    assert q >= 1.0 ==> q * b >= b;
  }

  /** `QuotaPressureScore`: more quota and less time to use it mean more pressure. */
  function QuotaPressure(quota: real, resetAt: Option<real>, now: real, windowSeconds: int): (p: real)
    ensures quota <= 0.0 ==> p == -1.0
    ensures quota > 0.0 ==> 0.0 < p <= MAX_PRESSURE
  {
    if quota <= 0.0 then -1.0
    else
      var f := RemainingFraction(resetAt, now, windowSeconds);
      DivisionPositive(quota, f);
      Min(quota / f, MAX_PRESSURE)
  }

  lemma DivisionPositive(a: real, b: real)
    requires a > 0.0 && b > 0.0
    ensures a / b > 0.0
  {
  }

  lemma DivisionMonotone(a: real, b: real, f: real)
    requires a <= b && f > 0.0
    ensures a / f <= b / f
  {
  }

  lemma PressureRises(q: real, q': real, resetAt: Option<real>, now: real, windowSeconds: int)
    requires q <= q'
    ensures QuotaPressure(q, resetAt, now, windowSeconds) <= QuotaPressure(q', resetAt, now, windowSeconds)
  {
    DivisionMonotone(q, q', RemainingFraction(resetAt, now, windowSeconds));
  }

  /** The pressure in cases: at most 10, and below it the quota per share of the window still to come. A
      window without a reset time or longer than its length is whole; one that is over counts as tiny. */
  lemma PressureByCase(quota: real, resetAt: Option<real>, now: real, windowSeconds: int)
    requires quota > 0.0
    ensures var p := QuotaPressure(quota, resetAt, now, windowSeconds);
            if resetAt.None? || windowSeconds <= 0 || resetAt.value - now >= windowSeconds as real then
              p == Min(quota, 10.0)
            else
              var remaining, length := resetAt.value - now, windowSeconds as real;
              if remaining <= 0.000001 * length then p == Min(quota * 1000000.0, 10.0)
              else if quota * length >= 10.0 * remaining then p == 10.0
              else p * remaining == quota * length
  {
    if resetAt.Some? && windowSeconds > 0 && 0.0 < resetAt.value - now < windowSeconds as real {
      Share(resetAt.value - now, windowSeconds as real);
      Quotient(quota, resetAt.value - now, windowSeconds as real);
    }
  }

  lemma Share(remaining: real, length: real)
    requires 0.0 < remaining < length
    ensures 0.0 < remaining / length && (remaining / length <= EPSILON <==> remaining <= 0.000001 * length)
  {
    var f := remaining / length;
    assert f * length == remaining;
    if f <= EPSILON {
      assert (EPSILON - f) * length >= 0.0;
    } else {
      assert (f - EPSILON) * length > 0.0;
    }
  }

  lemma Quotient(quota: real, remaining: real, length: real)
    requires quota > 0.0 && 0.0 < remaining < length && 0.0 < remaining / length
    ensures quota / (remaining / length) * remaining == quota * length
    ensures quota / (remaining / length) >= 10.0 <==> quota * length >= 10.0 * remaining
  {
    var f := remaining / length;
    var q := quota / f;
    assert f * length == remaining && q * f == quota;
    assert q * remaining == q * f * length;
    if q >= 10.0 {
      assert (q - 10.0) * remaining >= 0.0;
    } else {
      assert (10.0 - q) * remaining > 0.0;
    }
  }

  /** The nearer the reset, the higher the pressure. */
  lemma PressureNearerReset(quota: real, reset: real, later: real, now: real, windowSeconds: int)
    requires reset <= later && quota > 0.0
    ensures QuotaPressure(quota, Some(reset), now, windowSeconds) >= QuotaPressure(quota, Some(later), now,
                                                                                   windowSeconds)
  {
    var f, g := RemainingFraction(Some(reset), now, windowSeconds), RemainingFraction(Some(later), now, windowSeconds);
    FractionRises(reset, later, now, windowSeconds);
    DivisionFalls(quota, f, g);
  }

  lemma FractionRises(reset: real, later: real, now: real, windowSeconds: int)
    requires reset <= later
    ensures RemainingFraction(Some(reset), now, windowSeconds) <= RemainingFraction(Some(later), now, windowSeconds)
  {
    if windowSeconds > 0 {
      DivisionMonotone(reset - now, later - now, windowSeconds as real);
    }
  }

  lemma DivisionFalls(a: real, f: real, g: real)
    requires a > 0.0 && 0.0 < f <= g
    ensures a / f >= a / g
  {
    var q := a / f;
    assert q * f == a;
    assert q * g >= q * f by { assert q > 0.0 by { DivisionPositive(a, f); } assert q * (g - f) >= 0.0; }
    DivisionMonotone(a, q * g, g);
    assert q * g / g == q;
  }

  datatype Window = Window(quota: real, reset: real, windowSeconds: int)

  /** The pressure of each window; every window is measured at an instant of its own. */
  function Pressures(ws: seq<Window>, clock: nat -> real): (ps: seq<real>)
    ensures |ps| == |ws|
    ensures forall i | 0 <= i < |ws| ::
              ps[i] == QuotaPressure(ws[i].quota, Some(ws[i].reset), clock(i), ws[i].windowSeconds)
  {
    seq(|ws|, i requires 0 <= i < |ws| => QuotaPressure(ws[i].quota, Some(ws[i].reset), clock(i), ws[i].windowSeconds))
  }

  /** The pressure of window `i` capped by the longer windows after it. */
  function Capped(ps: seq<real>, i: nat): (c: real)
    requires i <= |ps|
    ensures c <= MAX_PRESSURE && forall j | i <= j < |ps| :: c <= ps[j]
    ensures c == MAX_PRESSURE || exists j :: i <= j < |ps| && c == ps[j]
    decreases |ps| - i
  {
    if i == |ps| then MAX_PRESSURE else Min(ps[i], Capped(ps, i + 1))
  }

  /** The weighted sum of the capped pressures. */
  function Layered(ps: seq<real>): real
    requires |ps| >= 1
  {
    if |ps| == 1 then Capped(ps, 0)
    else if |ps| == 2 then 0.8 * Capped(ps, 0) + 0.2 * Capped(ps, 1)
    else 0.7 * Capped(ps, 0) + 0.2 * Capped(ps, 1) + 0.1 * Capped(ps, 2)
  }

  /** Each window counts at most as much as any longer one; the shortest weighs most. */
  lemma LayeredByWindow(ps: seq<real>)
    requires 1 <= |ps| <= 3
    ensures |ps| == 1 ==> Layered(ps) == Min(ps[0], 10.0)
    ensures |ps| == 2 ==> Layered(ps) == 0.8 * Min(ps[0], Min(ps[1], 10.0)) + 0.2 * Min(ps[1], 10.0)
    ensures |ps| == 3 ==>
              Layered(ps) == 0.7 * Min(ps[0], Min(ps[1], Min(ps[2], 10.0)))
                             + 0.2 * Min(ps[1], Min(ps[2], 10.0)) + 0.1 * Min(ps[2], 10.0)
  {
    hide Min;
    CappedNext(ps, |ps| - 1);
    if |ps| >= 2 {
      CappedNext(ps, |ps| - 2);
    }
    if |ps| == 3 {
      CappedNext(ps, 0);
    }
  }

  /** No window has more than the longest one's share, and the scarcest window bounds from below. */
  lemma LayeredBounds(ps: seq<real>)
    requires |ps| >= 1 && forall i | 0 <= i < |ps| :: 0.0 < ps[i] <= MAX_PRESSURE
    ensures 0.0 < Layered(ps) <= MAX_PRESSURE && Layered(ps) <= ps[|ps| - 1]
    ensures exists m :: 0 <= m < |ps| && ps[m] <= Layered(ps) && forall i | 0 <= i < |ps| :: ps[m] <= ps[i]
  {
  }

  lemma {:induction false} CappedRises(ps: seq<real>, qs: seq<real>, i: nat)
    requires |ps| == |qs| && i <= |ps| && forall j | 0 <= j < |ps| :: ps[j] <= qs[j]
    ensures Capped(ps, i) <= Capped(qs, i)
    decreases |ps| - i
  {
  }

  lemma LayeredRises(ps: seq<real>, qs: seq<real>)
    requires 1 <= |ps| == |qs| && forall j | 0 <= j < |ps| :: ps[j] <= qs[j]
    ensures Layered(ps) <= Layered(qs)
  {
    forall i | 0 <= i < |ps|
      ensures Capped(ps, i) <= Capped(qs, i)
    {
      CappedRises(ps, qs, i);
    }
  }

  predicate Exhausted(ws: seq<Window>) {
    exists w :: w in ws && w.quota <= 0.0
  }

  /** The score of a list of windows. */
  function Score(ws: seq<Window>, clock: nat -> real): real {
    if ws == [] || Exhausted(ws) then -1.0 else Layered(Pressures(ws, clock))
  }

  /** The score is -1 exactly without windows or with an exhausted one. Otherwise it is in (0, 10], at
      least the pressure of the scarcest window and at most that of the longest. */
  lemma ScoreBounds(ws: seq<Window>, clock: nat -> real)
    ensures Score(ws, clock) == -1.0 <==> ws == [] || Exhausted(ws)
    ensures var ps := Pressures(ws, clock);
            Score(ws, clock) != -1.0 ==>
              && 0.0 < Score(ws, clock) <= MAX_PRESSURE && Score(ws, clock) <= ps[|ps| - 1]
              && exists m :: 0 <= m < |ps| && ps[m] <= Score(ws, clock) && forall i | 0 <= i < |ps| :: ps[m] <= ps[i]
  {
    hide Layered;
    if ws != [] && !Exhausted(ws) {
      assert forall w | w in ws :: w.quota > 0.0;
      LayeredBounds(Pressures(ws, clock));
    }
  }

  lemma ExhaustedScore(ws: seq<Window>, clock: nat -> real, i: nat)
    requires i < |ws| && ws[i].quota <= 0.0
    ensures Score(ws, clock) == -1.0
  {
    assert ws[i] in ws;
  }

  lemma LayeredScore(ws: seq<Window>, clock: nat -> real)
    requires ws != [] && forall j | 0 <= j < |ws| :: ws[j].quota > 0.0
    ensures Score(ws, clock) == Layered(Pressures(ws, clock))
  {
    assert forall w | w in ws :: w.quota > 0.0;
  }

  lemma CappedNext(ps: seq<real>, i: nat)
    requires i < |ps|
    ensures Capped(ps, i) == Min(ps[i], Capped(ps, i + 1))
  {
  }

  method LayeredQuotaPressureScore(ws: seq<Window>, clock: nat -> real) returns (score: real)
    ensures score == Score(ws, clock)
  {
    hide QuotaPressure, Pressures, Score, Capped;
    if |ws| == 0 {
      ScoreBounds(ws, clock);
      return -1.0;
    }
    ghost var ps := Pressures(ws, clock);
    var effective := seq(|ws|, i => 0.0);
    var longerCap := MAX_PRESSURE;
    var i := |ws|;
    while i > 0
      invariant 0 <= i <= |ws| == |effective|
      invariant longerCap == Capped(ps, i)
      invariant forall j | i <= j < |ws| :: ws[j].quota > 0.0 && effective[j] == Capped(ps, j)
    {
      i := i - 1;
      var pressure := QuotaPressure(ws[i].quota, Some(ws[i].reset), clock(i), ws[i].windowSeconds);
      if pressure < 0.0 {
        ExhaustedScore(ws, clock, i);
        return -1.0;
      }
      CappedNext(ps, i);
      effective := effective[i := Min(pressure, longerCap)];
      longerCap := effective[i];
    }
    if |effective| == 1 {
      score := effective[0];
    } else if |effective| == 2 {
      score := 0.8 * effective[0] + 0.2 * effective[1];
    } else {
      score := 0.7 * effective[0] + 0.2 * effective[1] + 0.1 * effective[2];
    }
    LayeredScore(ws, clock);
  }

  /** The windows upstream reported, shortest first. */
  function Windows(quotas: (real, real, real), resets: (Option<real>, Option<real>, Option<real>), seconds: (int, int))
    : (ws: seq<Window>)
    ensures |ws| == (if resets.0.Some? then 1 else 0) + (if resets.1.Some? then 1 else 0)
                    + (if resets.2.Some? then 1 else 0)
    ensures resets.0.Some? ==> ws[0] == Window(quotas.0, resets.0.value, seconds.0)
    ensures resets.1.Some? ==>
              ws[if resets.0.Some? then 1 else 0] == Window(quotas.1, resets.1.value, seconds.1)
    ensures resets.2.Some? ==> ws[|ws| - 1] == Window(quotas.2, resets.2.value, 2592000)
  {
    (if resets.0.Some? then [Window(quotas.0, resets.0.value, seconds.0)] else [])
    + (if resets.1.Some? then [Window(quotas.1, resets.1.value, seconds.1)] else [])
    + (if resets.2.Some? then [Window(quotas.2, resets.2.value, MONTH_SECONDS)] else [])
  }

  /** `calcCodexScore`. */
  method CalcCodexScore(quotas: (real, real, real), resets: (Option<real>, Option<real>, Option<real>),
                        seconds: (int, int),
                        clock: nat -> real) returns (score: real)
    ensures score == Score(Windows(quotas, resets, seconds), clock)
  {
    var ws := [];
    if resets.0.Some? {
      ws := ws + [Window(quotas.0, resets.0.value, seconds.0)];
    }
    if resets.1.Some? {
      ws := ws + [Window(quotas.1, resets.1.value, seconds.1)];
    }
    if resets.2.Some? {
      ws := ws + [Window(quotas.2, resets.2.value, MONTH_SECONDS)];
    }
    assert ws == Windows(quotas, resets, seconds);
    if |ws| == 0 {
      return -1.0;
    }
    for i := 0 to |ws|
      invariant forall j | 0 <= j < i :: ws[j].quota > 0.0
    {
      if ws[i].quota <= 0.0 {
        assert ws[i] in ws;
        return -1.0;
      }
    }
    score := LayeredQuotaPressureScore(ws, clock);
  }

  /** Raising quotas, with the same windows and instants, never lowers the score, -1 included. */
  lemma ScoreRises(ws: seq<Window>, vs: seq<Window>, clock: nat -> real)
    requires |ws| == |vs|
    requires forall i | 0 <= i < |ws| :: vs[i] == ws[i].(quota := vs[i].quota) && ws[i].quota <= vs[i].quota
    ensures Score(ws, clock) <= Score(vs, clock)
  {
    hide Layered, QuotaPressure;
    ScoreBounds(vs, clock);
    if ws != [] && !Exhausted(ws) {
      forall i | 0 <= i < |ws|
        ensures vs[i].quota > 0.0 && Pressures(ws, clock)[i] <= Pressures(vs, clock)[i]
      {
        assert ws[i] in ws;
        PressureRises(ws[i].quota, vs[i].quota, Some(ws[i].reset), clock(i), ws[i].windowSeconds);
      }
      LayeredRises(Pressures(ws, clock), Pressures(vs, clock));
    }
  }
}
