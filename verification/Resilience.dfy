/** The retry budget and the circuit breaker of a remote, over whole runs (src/network/protocol.c). Times are
    milliseconds of a monotone clock. */
module Resilience {
  const REFILL_MS := 60000

  ghost predicate Monotone(times: seq<nat>) {
    forall i, j | 0 <= i < j < |times| :: times[i] <= times[j]
  }

  // ----- the retry budget -----

  datatype Budget = Budget(remaining: nat, resetAt: nat)

  /** The state after one request for a retry, with b retries per refill; b == 0 means no limit. */
  function Refilled(b: nat, s: Budget, now: nat): Budget {
    if b > 0 && now >= s.resetAt then Budget(b, now + REFILL_MS) else s
  }

  predicate Admits(b: nat, s: Budget, now: nat) {
    b == 0 || Refilled(b, s, now).remaining > 0
  }

  function Consume(b: nat, s: Budget, now: nat): Budget {
    var r := Refilled(b, s, now);
    if b > 0 && r.remaining > 0 then r.(remaining := r.remaining - 1) else r
  }

  /** How many of the requests at these times are admitted. */
  function Admitted(b: nat, s: Budget, times: seq<nat>): nat
    decreases times
  {
    if times == [] then 0
    else (if Admits(b, s, times[0]) then 1 else 0) + Admitted(b, Consume(b, s, times[0]), times[1..])
  }

  function BudgetAfter(b: nat, s: Budget, times: seq<nat>): Budget
    decreases times
  {
    if times == [] then s else BudgetAfter(b, Consume(b, s, times[0]), times[1..])
  }

  lemma {:induction false} NeverAbove(b: nat, s: Budget, times: seq<nat>)
    requires s.remaining <= b
    ensures BudgetAfter(b, s, times).remaining <= b
    decreases times
  {
    if times != [] { NeverAbove(b, Consume(b, s, times[0]), times[1..]); }
  }

  /** Before the next refill at most what remains is admitted. */
  lemma {:induction false} WithinPeriod(b: nat, s: Budget, times: seq<nat>)
    requires b > 0 && forall i | 0 <= i < |times| :: times[i] < s.resetAt
    ensures Admitted(b, s, times) <= s.remaining
    decreases times
  {
    if times != [] {
      assert forall i | 0 <= i < |times[1..]| :: times[1..][i] == times[i + 1];
      WithinPeriod(b, Consume(b, s, times[0]), times[1..]);
    }
  }

  /** Without a limit every request is admitted; before the next refill exactly as many as remain. */
  lemma {:induction false} AdmitsExactly(b: nat, s: Budget, times: seq<nat>)
    requires forall i | 0 <= i < |times| :: times[i] < s.resetAt
    ensures b == 0 ==> Admitted(b, s, times) == |times|
    ensures b > 0 ==> Admitted(b, s, times) == if |times| < s.remaining then |times| else s.remaining
    decreases times
  {
    if times != [] {
      assert forall i | 0 <= i < |times[1..]| :: times[1..][i] == times[i + 1];
      AdmitsExactly(b, Consume(b, s, times[0]), times[1..]);
    }
  }

  /** From the time of the refill on a request brings b retries, of which it takes the first. */
  lemma {:induction false} RefillsExactly(b: nat, s: Budget, times: seq<nat>)
    requires b > 0 && times != [] && times[0] >= s.resetAt
    requires forall i | 0 <= i < |times| :: times[i] < times[0] + 60000
    ensures Admitted(b, s, times) == if |times| < b then |times| else b
  {
    var rest := times[1..];
    assert forall i | 0 <= i < |rest| :: rest[i] == times[i + 1];
    assert Consume(b, s, times[0]) == Budget(b - 1, times[0] + 60000);
    AdmitsExactly(b, Consume(b, s, times[0]), rest);
  }

  /** Less than a minute beyond the next refill there is at most that one. */
  lemma {:induction false} WithinTwo(b: nat, s: Budget, times: seq<nat>)
    requires b > 0 && Monotone(times) && forall i | 0 <= i < |times| :: times[i] < s.resetAt + REFILL_MS
    ensures Admitted(b, s, times) <= s.remaining + b
    decreases times
  {
    if times != [] {
      var t, rest, s' := times[0], times[1..], Consume(b, s, times[0]);
      forall i | 0 <= i < |rest| ensures rest[i] == times[i + 1] {
      }
      if t >= s.resetAt {
        WithinPeriod(b, s', rest);
      } else {
        WithinTwo(b, s', rest);
      }
    }
  }

  /** In any run, between two refills at most b retries are admitted, and in any span of 60000 ms at most
      2*b. `before` is the run up to the span. */
  lemma {:induction false} BudgetBound(b: nat, s: Budget, before: seq<nat>, span: seq<nat>)
    requires b > 0 && s.remaining <= b && Monotone(span)
    ensures (forall i | 0 <= i < |span| :: span[i] < BudgetAfter(b, s, before).resetAt)
      ==> Admitted(b, BudgetAfter(b, s, before), span) <= b
    ensures span != [] && span[|span| - 1] <= span[0] + REFILL_MS
      ==> Admitted(b, BudgetAfter(b, s, before), span) <= 2 * b
  {
    var s1 := BudgetAfter(b, s, before);
    NeverAbove(b, s, before);
    if forall i | 0 <= i < |span| :: span[i] < s1.resetAt { WithinPeriod(b, s1, span); }
    if span != [] && span[|span| - 1] <= span[0] + REFILL_MS {
      forall i | 0 <= i < |span| ensures span[0] <= span[i] <= span[0] + REFILL_MS {
      }
      if span[0] < s1.resetAt {
        WithinTwo(b, s1, span);
      } else {
        var s2 := s1.(remaining := b, resetAt := span[0] + REFILL_MS);
        assert Admitted(b, s1, span) == Admitted(b, s2, span) by { SameAfterRefill(b, s1, s2, span); }
        WithinTwo(b, s2, span);
      }
    }
  }

  lemma SameAfterRefill(b: nat, s1: Budget, s2: Budget, span: seq<nat>)
    requires b > 0 && span != [] && span[0] >= s1.resetAt && s2 == Budget(b, span[0] + REFILL_MS)
    ensures Admitted(b, s1, span) == Admitted(b, s2, span)
  {
    assert Consume(b, s1, span[0]) == Consume(b, s2, span[0]);
  }

  // ----- the circuit breaker -----

  /** Zero in the configuration stands for the defaults. */
  datatype Config = Config(failureThreshold: nat, successThreshold: nat, openMs: nat)
  {
    function Failures(): (n: nat)
      ensures n >= 1
    {
      if failureThreshold > 0 then failureThreshold else 5
    }

    function Successes(): (n: nat)
      ensures n >= 1
    {
      if successThreshold > 0 then successThreshold else 1
    }

    function OpenFor(): (n: nat)
      ensures n >= 1
    {
      if openMs > 0 then openMs else 30000
    }
  }

  lemma Defaults()
    ensures forall c: Config ::
      && c.Failures() == (if c.failureThreshold == 0 then 5 else c.failureThreshold)
      && c.Successes() == (if c.successThreshold == 0 then 1 else c.successThreshold)
      && c.OpenFor() == if c.openMs == 0 then 30000 else c.openMs
  {
  }

  /** Closed when openUntil is zero. */
  datatype Breaker = Breaker(openUntil: nat, failures: nat, successes: nat)

  const START := Breaker(0, 0, 0)

  predicate Closed(s: Breaker) {
    s.openUntil == 0
  }

  predicate Allows(s: Breaker, now: nat) {
    Closed(s) || now >= s.openUntil
  }

  datatype Event = Asked(now: nat) | Succeeded(now: nat) | Failed(now: nat)

  function OnSuccess(c: Config, s: Breaker, now: nat): Breaker {
    if !Closed(s) && now >= s.openUntil then
      if s.successes + 1 >= c.Successes() then START else s.(successes := s.successes + 1)
    else if Closed(s) then s.(failures := 0)
    else s
  }

  function OnFailure(c: Config, s: Breaker, now: nat): Breaker {
    if !Closed(s) && now < s.openUntil then s
    else if !Closed(s) then s.(openUntil := now + c.OpenFor(), successes := 0)
    else if s.failures + 1 >= c.Failures() then Breaker(now + c.OpenFor(), s.failures + 1, 0)
    else s.(failures := s.failures + 1)
  }

  function Step(c: Config, s: Breaker, e: Event): Breaker {
    match e
    case Asked(_) => s
    case Succeeded(now) => OnSuccess(c, s, now)
    case Failed(now) => OnFailure(c, s, now)
  }

  /** The state after the first i events. */
  function At(c: Config, es: seq<Event>, i: nat): Breaker
    requires i <= |es|
  {
    if i == 0 then START else Step(c, At(c, es, i - 1), es[i - 1])
  }

  ghost predicate InOrder(es: seq<Event>) {
    forall i, j | 0 <= i < j < |es| :: es[i].now <= es[j].now
  }

  /** Closed implies fewer failures than the threshold; open implies fewer successes than theirs. */
  lemma {:induction false} ClosedBelow(c: Config, es: seq<Event>, i: nat)
    requires i <= |es|
    ensures Closed(At(c, es, i)) ==> At(c, es, i).failures < c.Failures() && At(c, es, i).successes == 0
    ensures !Closed(At(c, es, i)) ==> At(c, es, i).successes < c.Successes()
  {
    if i > 0 { ClosedBelow(c, es, i - 1); }
  }

  /** How many of the events from j to i are failures. */
  function FailuresIn(es: seq<Event>, j: nat, i: nat): nat
    requires j <= i <= |es|
  {
    if j == i then 0 else FailuresIn(es, j, i - 1) + if es[i - 1].Failed? then 1 else 0
  }

  /** A stretch of events from j to i during which the breaker is closed and no success is reported; it
      starts at the beginning or right after a success. */
  ghost predicate Streak(c: Config, es: seq<Event>, j: nat, i: nat) {
    && j <= i <= |es| && (j == 0 || es[j - 1].Succeeded?)
    && (forall k | j <= k <= i :: Closed(At(c, es, k)))
    && forall k | j <= k < i :: !es[k].Succeeded?
  }

  /** A closed breaker has counted the consecutive failures since the last success, or since the start. */
  lemma {:induction false} CountsStreak(c: Config, es: seq<Event>, i: nat) returns (j: nat)
    requires i <= |es| && Closed(At(c, es, i))
    ensures Streak(c, es, j, i) && At(c, es, i).failures == FailuresIn(es, j, i)
  {
    if i == 0 || es[i - 1].Succeeded? {
      j := i;
    } else {
      j := CountsStreak(c, es, i - 1);
    }
  }

  /** It trips exactly on the threshold-th consecutive failure counted while closed. */
  lemma {:induction false} TripsExactly(c: Config, es: seq<Event>, i: nat) returns (j: nat)
    requires i < |es| && Closed(At(c, es, i))
    ensures Streak(c, es, j, i)
    ensures !Closed(At(c, es, i + 1)) <==> es[i].Failed? && FailuresIn(es, j, i + 1) == c.Failures()
    ensures !Closed(At(c, es, i + 1)) ==> At(c, es, i + 1).openUntil == es[i].now + c.OpenFor()
  {
    j := CountsStreak(c, es, i);
    ClosedBelow(c, es, i);
  }

  /** Until then every request is refused, whatever outcomes are reported. */
  lemma {:induction false} StaysOpen(c: Config, es: seq<Event>, i: nat, k: nat)
    requires InOrder(es) && i <= k <= |es| && !Closed(At(c, es, i))
    requires forall m | i <= m < k :: es[m].now < At(c, es, i).openUntil
    ensures At(c, es, k) == At(c, es, i)
    decreases k
  {
    if i < k { StaysOpen(c, es, i, k - 1); }
  }

  lemma {:induction false} RefusesWhileOpen(c: Config, es: seq<Event>, i: nat, k: nat, now: nat)
    requires InOrder(es) && i < |es| && Closed(At(c, es, i)) && !Closed(At(c, es, i + 1)) && i < k <= |es|
    requires (forall m | i < m < k :: es[m].now <= now) && now < es[i].now + c.OpenFor()
    ensures !Allows(At(c, es, k), now)
  {
    var j := TripsExactly(c, es, i);
    StaysOpen(c, es, i + 1, k);
  }

  /** While closed every request is allowed; after a trip, until an outcome is reported once its open time is
      over, exactly the requests from then on are. */
  lemma {:induction false} AllowsExactly(c: Config, es: seq<Event>, i: nat, k: nat, now: nat)
    requires InOrder(es) && i <= |es|
    ensures Closed(At(c, es, i)) ==> Allows(At(c, es, i), now)
    ensures i < k <= |es| && Closed(At(c, es, i)) && !Closed(At(c, es, i + 1))
      && (forall m | i < m < k :: es[m].now < es[i].now + c.OpenFor())
      ==> (Allows(At(c, es, k), now) <==> now >= es[i].now + c.OpenFor())
  {
    if i < k <= |es| && Closed(At(c, es, i)) && !Closed(At(c, es, i + 1))
      && (forall m | i < m < k :: es[m].now < es[i].now + c.OpenFor())
    {
      var j := TripsExactly(c, es, i);
      StaysOpen(c, es, i + 1, k);
    }
  }

  /** A failure reported once the open time is over opens the breaker for that long again, from then; requests
      change nothing. */
  lemma {:induction false} Reopens(c: Config, es: seq<Event>, m: nat)
    requires m < |es|
    ensures es[m].Failed? && Counted(c, es, m) ==>
      At(c, es, m + 1).openUntil == es[m].now + c.OpenFor() && At(c, es, m + 1).successes == 0
    ensures es[m].Asked? ==> At(c, es, m + 1) == At(c, es, m)
    ensures es[m].Succeeded? && Counted(c, es, m) && !Closed(At(c, es, m + 1)) ==>
      At(c, es, m + 1).openUntil == At(c, es, m).openUntil
  {
  }

  /** A success is counted when the open time is over; so is a failure, which opens the breaker again. */
  predicate Counted(c: Config, es: seq<Event>, m: nat)
    requires m < |es|
  {
    !Closed(At(c, es, m)) && es[m].now >= At(c, es, m).openUntil && !es[m].Asked?
  }

  function SuccessesIn(c: Config, es: seq<Event>, j: nat, i: nat): nat
    requires j <= i <= |es|
  {
    if j == i then 0
    else SuccessesIn(c, es, j, i - 1) + if es[i - 1].Succeeded? && Counted(c, es, i - 1) then 1 else 0
  }

  /** A stretch from j to i during which the breaker is open and no failure is counted; it starts right after
      the failure that opened it. */
  ghost predicate Recovery(c: Config, es: seq<Event>, j: nat, i: nat) {
    && 0 < j <= i <= |es| && es[j - 1].Failed? && (Closed(At(c, es, j - 1)) || Counted(c, es, j - 1))
    && (forall k | j <= k <= i :: !Closed(At(c, es, k)))
    && forall k | j <= k < i :: es[k].Failed? ==> !Counted(c, es, k)
  }

  lemma {:induction false} CountsRecovery(c: Config, es: seq<Event>, i: nat) returns (j: nat)
    requires i <= |es| && !Closed(At(c, es, i))
    ensures Recovery(c, es, j, i) && At(c, es, i).successes == SuccessesIn(c, es, j, i)
  {
    ClosedBelow(c, es, i - 1);
    if Closed(At(c, es, i - 1)) || (es[i - 1].Failed? && Counted(c, es, i - 1)) {
      j := i;
    } else {
      j := CountsRecovery(c, es, i - 1);
    }
  }

  /** It closes exactly when the last of success_threshold counted successes is reported, with no counted
      failure between them. */
  lemma {:induction false} ClosesExactly(c: Config, es: seq<Event>, i: nat) returns (j: nat)
    requires i < |es| && !Closed(At(c, es, i))
    ensures Recovery(c, es, j, i)
    ensures Closed(At(c, es, i + 1)) <==>
      es[i].Succeeded? && Counted(c, es, i) && SuccessesIn(c, es, j, i + 1) == c.Successes()
    ensures Closed(At(c, es, i + 1)) ==> At(c, es, i + 1) == START
  {
    j := CountsRecovery(c, es, i);
    ClosedBelow(c, es, i);
  }

  // ----- the remote -----

  /** The fields of a remote that the two guards update. */
  class Remote {
    var perMinute: nat
    var budgetRemaining: nat
    var budgetResetMs: nat
    var config: Config
    var openUntilMs: nat
    var failures: nat
    var successes: nat

    ghost function BudgetView(): Budget
      reads this
    {
      Budget(budgetRemaining, budgetResetMs)
    }

    ghost function BreakerView(): Breaker
      reads this
    {
      Breaker(openUntilMs, failures, successes)
    }

    constructor (now: nat)
      ensures perMinute == 20 && BudgetView() == Budget(20, now + REFILL_MS) && BreakerView() == START
        && config == Config(5, 2, 30000)
    {
      perMinute, budgetRemaining, budgetResetMs := 20, 20, now + REFILL_MS;
      config := Config(5, 2, 30000);
      openUntilMs, failures, successes := 0, 0, 0;
    }

    /** Setting a retry policy starts a new minute. */
    method SetRetryPolicy(b: nat, now: nat)
      modifies this`perMinute, this`budgetRemaining, this`budgetResetMs
      ensures perMinute == b && BudgetView() == Budget(b, now + REFILL_MS)
    {
      perMinute, budgetRemaining, budgetResetMs := b, b, now + REFILL_MS;
    }

    method SetCircuitBreaker(c: Config)
      modifies this`config, this`openUntilMs, this`failures, this`successes
      ensures config == c && BreakerView() == START
    {
      config := c;
      openUntilMs, failures, successes := 0, 0, 0;
    }

    method BudgetConsume(now: nat) returns (ok: bool)
      modifies this`budgetRemaining, this`budgetResetMs
      ensures ok == Admits(perMinute, old(BudgetView()), now)
      ensures BudgetView() == Consume(perMinute, old(BudgetView()), now)
    {
      if perMinute == 0 { return true; }
      if now >= budgetResetMs {
        budgetRemaining := perMinute;
        budgetResetMs := now + REFILL_MS;
      }
      if budgetRemaining == 0 { return false; }
      budgetRemaining := budgetRemaining - 1;
      ok := true;
    }

    method CircuitAllow(now: nat) returns (ok: bool)
      ensures ok == Allows(BreakerView(), now)
    {
      if openUntilMs == 0 { return true; }
      if now < openUntilMs { return false; }
      ok := true;
    }

    method CircuitOnSuccess(now: nat)
      modifies this`openUntilMs, this`failures, this`successes
      ensures BreakerView() == Step(config, old(BreakerView()), Succeeded(now))
    {
      if openUntilMs != 0 && now >= openUntilMs {
        successes := successes + 1;
        if successes >= config.Successes() {
          openUntilMs := 0;
          failures := 0;
          successes := 0;
        }
      } else if openUntilMs == 0 {
        failures := 0;
      }
    }

    method CircuitOnFailure(now: nat)
      modifies this`openUntilMs, this`failures, this`successes
      ensures BreakerView() == Step(config, old(BreakerView()), Failed(now))
    {
      if openUntilMs != 0 && now < openUntilMs { return; }
      if openUntilMs != 0 && now >= openUntilMs {
        openUntilMs := now + config.OpenFor();
        successes := 0;
        return;
      }
      failures := failures + 1;
      if failures >= config.Failures() {
        openUntilMs := now + config.OpenFor();
        successes := 0;
      }
    }
  }
}
