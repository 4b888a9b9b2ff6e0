/** How long a failing credential is kept out (`DecideFailureThrottle`, `calcBackoff`). Durations are
    whole units; overflow of doubling without a maximum is not modelled. */
module FailureThrottle {

  const CONSECUTIVE_FAILURES: int := 3
  const TOO_MANY_REQUESTS: int := 429
  const SERVICE_UNAVAILABLE: int := 503

  datatype Decision = Keep | Throttle(backoff: int, explicitRetryAfter: bool)

  function Power(k: nat): (p: nat)
    ensures p >= 1
  {
    if k == 0 then 1 else 2 * Power(k - 1)
  }

  /** The doubled base, or the maximum once another doubling would reach or pass it. */
  function Backoff(consecutive: int, base: int, max: int): int {
    if base <= 0 then 0
    else if consecutive <= 1 then base
    else if max > 0 && base * Power(consecutive - 2) >= max / 2 then max
    else base * Power(consecutive - 1)
  }

  lemma PowerStep(base: int, k: nat)
    requires base > 0
    ensures base * Power(k + 1) == 2 * (base * Power(k)) && base * Power(k) >= base
  {
    assert Power(k + 1) == 2 * Power(k);
    assert base * Power(k + 1) == base * (2 * Power(k));
    assert base * (Power(k) - 1) >= 0;
  }

  lemma {:induction false} PowerRises(base: int, k: nat, l: nat)
    requires base > 0 && k <= l
    ensures base * Power(k) <= base * Power(l)
    decreases l
  {
    if k < l {
      PowerRises(base, k, l - 1);
      PowerStep(base, l - 1);
    }
  }

  method CalcBackoff(consecutive: int, base: int, max: int) returns (d: int)
    ensures d == Backoff(consecutive, base, max)
  {
    if base <= 0 {
      return 0;
    }
    if consecutive <= 1 {
      return base;
    }
    d := base;
    assert base * Power(0) == base;
    for i := 0 to consecutive - 1
      invariant d == base * Power(i)
      invariant max > 0 && i > 0 ==> base * Power(i - 1) < max / 2
    {
      if max > 0 && d >= max / 2 {
        PowerRises(base, i, consecutive - 2);
        return max;
      }
      PowerStep(base, i);
      d := d * 2;
    }
    if max > 0 && d > max {
      PowerStep(base, consecutive - 2);
      assert false;
    }
  }

  /** From the second throttle on the backoff never exceeds the maximum. */
  lemma BackoffBounded(consecutive: int, base: int, max: int)
    requires max > 0 && consecutive >= 2
    ensures Backoff(consecutive, base, max) <= max
  {
    if base > 0 && base * Power(consecutive - 2) < max / 2 {
      PowerStep(base, consecutive - 2);
    }
  }

  /** The backoff doubles with every further failure until it reaches the maximum, or falls one short. */
  lemma BackoffDoubles(consecutive: int, base: int, max: int)
    requires consecutive >= 2 && base > 0
    ensures var doubled := base * Power(consecutive - 1);
            && doubled == 2 * (base * Power(consecutive - 2))
            && Backoff(consecutive, base, max) == if max > 0 && doubled >= max - 1 then max else doubled
  {
    PowerStep(base, consecutive - 2);
  }

  lemma BackoffRises(c: int, d: int, base: int, max: int)
    requires c <= d && (max <= 0 || base <= max)
    ensures Backoff(c, base, max) <= Backoff(d, base, max)
  {
    if base > 0 && d >= 2 {
      PowerRises(base, 0, d - 1);
      assert base * Power(0) == base;
      if c >= 2 {
        PowerRises(base, c - 2, d - 2);
        PowerRises(base, c - 1, d - 1);
        if max > 0 {
          BackoffBounded(c, base, max);
        }
      }
    }
  }

  /** More failures never shorten the backoff, exactly when the base is within the maximum. */
  lemma BackoffMonotoneIff(base: int, max: int)
    requires max > 0
    ensures (forall c, d | c <= d :: Backoff(c, base, max) <= Backoff(d, base, max)) <==> base <= max
  {
    if base <= max {
      forall c, d | c <= d
        ensures Backoff(c, base, max) <= Backoff(d, base, max)
      {
        BackoffRises(c, d, base, max);
      }
    } else {
      assert Backoff(1, base, max) == base;
      assert base * Power(0) == base;
      assert Backoff(2, base, max) == max;
    }
  }

  method DecideFailureThrottle(status: int, retryAfter: int, consecutive: int, base: int, max: int)
    returns (decision: Decision)
    ensures var explicit := (status == TOO_MANY_REQUESTS || status == SERVICE_UNAVAILABLE) && retryAfter > 0;
            && (decision.Throttle? <==> explicit || consecutive >= CONSECUTIVE_FAILURES)
            && (decision.Throttle? ==>
                  decision == if explicit then Throttle(retryAfter, true)
                              else Throttle(Backoff(consecutive - CONSECUTIVE_FAILURES + 1, base, max), false))
  {
    if (status == TOO_MANY_REQUESTS || status == SERVICE_UNAVAILABLE) && retryAfter > 0 {
      return Throttle(retryAfter, true);
    }
    if consecutive < CONSECUTIVE_FAILURES {
      return Keep;
    }
    var backoff := CalcBackoff(consecutive - CONSECUTIVE_FAILURES + 1, base, max);
    decision := Throttle(backoff, false);
  }
}
