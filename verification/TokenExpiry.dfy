/**
Does the attestation token of the installed session ever lapse? The answer for the self-config loop of main.go, as an
exact condition on its four constants and on what it assumes about discovery.
*/
module TokenExpiry {
  import opened ConfigLoop
  import opened Wrappers

  /**
  What is assumed of the surroundings: a discovery takes at most `discovery`, a vended token has at least `minLeft`
  left when its discovery returns and says so, in whole seconds, and at most `maxFailures` discoveries in a row fail.
  The vault stays owned.
  */
  datatype Assumed = Assumed(discovery: nat, minLeft: nat, maxFailures: nat)

  predicate Conforms(a: Assumed, s: State, step: Step) {
    && Enabled(s, step)
    && match step
       case Tick(elapsed) => s.loop.Discovering? ==> s.now + elapsed <= s.loop.start + a.discovery
       case Finish(Discovered(d)) =>
         && d.Owns(s.writes[s.loop.seen - 1].vaultId)
         && d.expiresAt > 0 && d.expiresAt % SECOND == 0 && d.expiresAt >= s.now + a.minLeft
       case Finish(_) => s.failures < a.maxFailures
       case _ => true
  }

  predicate ConformingRun(t: Timing, a: Assumed, s: State, steps: seq<Step>)
    decreases |steps|
  {
    steps == [] || (Conforms(a, s, steps[0]) && ConformingRun(t, a, Next(t, s, steps[0]), steps[1..]))
  }

  lemma {:induction false} ConformingRuns(t: Timing, a: Assumed, s: State, steps: seq<Step>)
    requires ConformingRun(t, a, s, steps)
    ensures Runs(t, s, steps)
    decreases |steps|
  {
    if steps != [] {
      ConformingRuns(t, a, Next(t, s, steps[0]), steps[1..]);
    }
  }

  ghost function Final(t: Timing, a: Assumed, s: State, steps: seq<Step>): State
    requires ConformingRun(t, a, s, steps)
  {
    ConformingRuns(t, a, s, steps);
    End(t, s, steps)
  }

  /** A session is installed and its attestation token is past its expiry. */
  predicate Lapsed(s: State) { s.session.Some? && s.now > s.expiry }

  /** No run in these surroundings ever reaches a lapsed token. */
  ghost predicate NeverLapses(t: Timing, a: Assumed) {
    forall now, steps :: ConformingRun(t, a, Init(now), steps) ==> !Lapsed(Final(t, a, Init(now), steps))
  }

  /** Constants that make sense: no negative wait, and the shortest refresh is not above the longest. */
  predicate Sane(t: Timing) { 0 <= t.minRefresh <= t.maxRefresh && 0 <= t.retryBackoff }

  /** What is left of the shortest-lived token when the loop wakes to replace it. */
  function Slack(t: Timing, a: Assumed): int { a.minLeft - SleepFor(t, a.minLeft) }

  /** The longest time from a wake-up to the start of the attempt after `n` failed ones. */
  function Delay(t: Timing, a: Assumed, n: nat): int {
    if n == 0 then 0 else Delay(t, a, n - 1) + a.discovery + t.retryBackoff
  }

  /** Longer-lived tokens leave no less when the loop wakes. */
  lemma SlackIsLeast(t: Timing, a: Assumed, left: int)
    requires Sane(t) && left >= a.minLeft
    ensures left - SleepFor(t, left) >= Slack(t, a)
  {
  }

  // ---- Enough slack: no run lapses ----

  /** While a session is installed, how late the loop can be, given how many attempts have failed since. */
  predicate OnTime(t: Timing, a: Assumed, s: State) {
    && s.failures <= a.maxFailures
    && (s.loop.AwaitingConfig? ==> s.session.None?)
    && (s.writes == [] ==> s.session.None?)
    && (s.session.Some? ==>
          var latest := s.expiry - Slack(t, a) + Delay(t, a, s.failures);
          match s.loop
          case AtGet => s.now <= latest
          case AwaitingConfig => true
          case Discovering(_, start) => start <= latest && s.now <= start + a.discovery
          case Sleeping(_, deadline) => s.now <= deadline <= latest)
    && (s.loop.Discovering? ==> s.now <= s.loop.start + a.discovery)
  }

  lemma StepOnTime(t: Timing, a: Assumed, s: State, step: Step)
    requires Sane(t) && OnTime(t, a, s) && Conforms(a, s, step)
    ensures OnTime(t, a, Next(t, s, step))
  {
    match step {
      case Finish(Discovered(d)) =>
        SlackIsLeast(t, a, d.expiresAt - s.now);
      case Finish(_) =>
        assert Delay(t, a, s.failures + 1) == Delay(t, a, s.failures) + a.discovery + t.retryBackoff;
      case _ =>
    }
  }

  lemma {:induction false} RunOnTime(t: Timing, a: Assumed, s: State, steps: seq<Step>)
    requires Sane(t) && OnTime(t, a, s) && ConformingRun(t, a, s, steps)
    ensures OnTime(t, a, Final(t, a, s, steps))
    decreases |steps|
  {
    if steps != [] {
      StepOnTime(t, a, s, steps[0]);
      RunOnTime(t, a, Next(t, s, steps[0]), steps[1..]);
    }
  }

  lemma {:induction false} DelayGrows(t: Timing, a: Assumed, m: nat, n: nat)
    requires Sane(t) && m <= n
    ensures 0 <= Delay(t, a, m) <= Delay(t, a, n)
    decreases n
  {
    if m < n {
      DelayGrows(t, a, m, n - 1);
    } else if m > 0 {
      DelayGrows(t, a, m - 1, m - 1);
    }
  }

  lemma OnTimeNotLapsed(t: Timing, a: Assumed, s: State)
    requires Sane(t) && OnTime(t, a, s)
    requires Slack(t, a) >= Delay(t, a, a.maxFailures) + a.discovery
    ensures !Lapsed(s)
  {
    DelayGrows(t, a, s.failures, a.maxFailures);
  }

  // ---- Too little slack: a run that lapses ----

  lemma {:induction false} ConformingAppend(t: Timing, a: Assumed, s: State, x: seq<Step>, y: seq<Step>)
    requires ConformingRun(t, a, s, x) && ConformingRun(t, a, Final(t, a, s, x), y)
    ensures ConformingRun(t, a, s, x + y)
    ensures Final(t, a, s, x + y) == Final(t, a, Final(t, a, s, x), y)
    decreases |x|
  {
    if x == [] {
      assert x + y == y;
    } else {
      assert (x + y)[1..] == x[1..] + y;
      ConformingAppend(t, a, Next(t, s, x[0]), x[1..], y);
    }
  }

  lemma OneStep(t: Timing, a: Assumed, s: State, step: Step)
    requires Conforms(a, s, step)
    ensures ConformingRun(t, a, s, [step]) && Final(t, a, s, [step]) == Next(t, s, step)
  {
    assert [step][0] == step && [step][1..] == [];
    assert ConformingRun(t, a, Next(t, s, step), []);
    assert ConformingRun(t, a, s, [step]);
    ConformingRuns(t, a, s, [step]);
    assert End(t, s, [step]) == End(t, Next(t, s, step), []);
  }

  /** One more step at the end of a run. */
  lemma Extend(t: Timing, a: Assumed, s: State, x: seq<Step>, step: Step)
    requires ConformingRun(t, a, s, x) && Conforms(a, Final(t, a, s, x), step)
    ensures ConformingRun(t, a, s, x + [step])
    ensures Final(t, a, s, x + [step]) == Next(t, Final(t, a, s, x), step)
  {
    var e := Final(t, a, s, x);
    OneStep(t, a, e, step);
    ConformingAppend(t, a, s, x, [step]);
  }

  /** The loop wakes with a session installed, `left` before its token lapses. */
  predicate Woken(a: Assumed, s: State, left: int, failures: nat) {
    && s.loop.AtGet? && s.session.Some? && s.writes != [] && s.failures == failures
    && s.expiry - s.now == left
  }

  /** A time from which the shortest life of a token ends on a whole second. */
  function Dawn(a: Assumed): (now: int)
    ensures now > 0 && (now + a.minLeft) % SECOND == 0
  {
    (a.minLeft / SECOND + 1) * SECOND - a.minLeft
  }

  /** A first configuration, a first session with a token of the shortest life, and the wake-up to replace it. */
  lemma FirstSession(t: Timing, a: Assumed) returns (steps: seq<Step>)
    requires Sane(t)
    ensures ConformingRun(t, a, Init(Dawn(a)), steps) && Woken(a, Final(t, a, Init(Dawn(a)), steps), Slack(t, a), 0)
  {
    var s := Init(Dawn(a));
    var d := Discovery(["v"], [], "", "", "", Dawn(a) + a.minLeft);
    steps := [];
    steps := Then(t, a, s, steps, Get);
    steps := Then(t, a, s, steps, Write(Config("m", "v")));
    steps := Then(t, a, s, steps, Send);
    steps := Then(t, a, s, steps, WakeByReload);
    steps := Then(t, a, s, steps, Get);
    steps := Then(t, a, s, steps, Finish(Discovered(d)));
    steps := Then(t, a, s, steps, Tick(SleepFor(t, a.minLeft)));
    steps := Then(t, a, s, steps, WakeByTimer);
  }

  lemma Then(t: Timing, a: Assumed, s: State, x: seq<Step>, step: Step) returns (y: seq<Step>)
    requires ConformingRun(t, a, s, x) && Conforms(a, Final(t, a, s, x), step)
    ensures ConformingRun(t, a, s, y) && Final(t, a, s, y) == Next(t, Final(t, a, s, x), step)
  {
    Extend(t, a, s, x, step);
    y := x + [step];
  }

  /** Discoveries that take as long as they may and fail, as often as they may. */
  lemma {:induction false} FailingRounds(t: Timing, a: Assumed, n: nat) returns (steps: seq<Step>)
    requires Sane(t) && n <= a.maxFailures
    ensures ConformingRun(t, a, Init(Dawn(a)), steps)
    ensures Woken(a, Final(t, a, Init(Dawn(a)), steps), Slack(t, a) - Delay(t, a, n), n)
  {
    if n == 0 {
      steps := FirstSession(t, a);
    } else {
      var s := Init(Dawn(a));
      steps := FailingRounds(t, a, n - 1);
      steps := Then(t, a, s, steps, Get);
      steps := Then(t, a, s, steps, Tick(a.discovery));
      steps := Then(t, a, s, steps, Finish(Failed));
      steps := Then(t, a, s, steps, Tick(t.retryBackoff));
      steps := Then(t, a, s, steps, WakeByTimer);
    }
  }

  lemma LapsingRun(t: Timing, a: Assumed) returns (steps: seq<Step>)
    requires Sane(t) && Slack(t, a) < Delay(t, a, a.maxFailures) + a.discovery
    ensures ConformingRun(t, a, Init(Dawn(a)), steps) && Lapsed(Final(t, a, Init(Dawn(a)), steps))
  {
    var s := Init(Dawn(a));
    steps := FailingRounds(t, a, a.maxFailures);
    steps := Then(t, a, s, steps, Get);
    steps := Then(t, a, s, steps, Tick(a.discovery));
  }

  /**
  The exact condition. Over every run, with any number of submissions at any moment, no installed token lapses if and
  only if the shortest-lived token outlasts its sleep by all the failures that may follow and one more discovery.
  */
  lemma NeverLapsesExactly(t: Timing, a: Assumed)
    requires Sane(t)
    ensures NeverLapses(t, a) <==> Slack(t, a) >= Delay(t, a, a.maxFailures) + a.discovery
  {
    if Slack(t, a) >= Delay(t, a, a.maxFailures) + a.discovery {
      forall now, steps | ConformingRun(t, a, Init(now), steps)
        ensures !Lapsed(Final(t, a, Init(now), steps))
      {
        RunOnTime(t, a, Init(now), steps);
        OnTimeNotLapsed(t, a, Final(t, a, Init(now), steps));
      }
    } else {
      var steps := LapsingRun(t, a);
    }
  }

  /**
  The gateway's own constants, when tokens live long enough to be refreshed early: one failed discovery in between is
  survived exactly when discoveries take at most 45 seconds, and two in a row exactly when they take at most 20.
  */
  lemma GatewayDiscoveryBound(discovery: nat, minLeft: nat)
    requires 3 * MINUTE <= minLeft <= 32 * MINUTE
    ensures NeverLapses(GATEWAY, Assumed(discovery, minLeft, 0)) <==> discovery <= 120 * SECOND
    ensures NeverLapses(GATEWAY, Assumed(discovery, minLeft, 1)) <==> discovery <= 45 * SECOND
    ensures NeverLapses(GATEWAY, Assumed(discovery, minLeft, 2)) <==> discovery <= 20 * SECOND
  {
    NeverLapsesExactly(GATEWAY, Assumed(discovery, minLeft, 0));
    NeverLapsesExactly(GATEWAY, Assumed(discovery, minLeft, 1));
    NeverLapsesExactly(GATEWAY, Assumed(discovery, minLeft, 2));
    var b := Assumed(discovery, minLeft, 2);
    assert Delay(GATEWAY, b, 2) == Delay(GATEWAY, b, 1) + discovery + 30 * SECOND;
  }

  /** With discoveries of up to 45 seconds and one failure in between, three minutes of life is what a token needs. */
  lemma GatewayTokenLife(minLeft: nat)
    ensures NeverLapses(GATEWAY, Assumed(45 * SECOND, minLeft, 1)) <==> minLeft >= 3 * MINUTE
  {
    NeverLapsesExactly(GATEWAY, Assumed(45 * SECOND, minLeft, 1));
  }

  lemma {:induction false} DelayInRounds(t: Timing, a: Assumed, n: nat)
    ensures Delay(t, a, n) == n * (a.discovery + t.retryBackoff)
  {
    if n > 0 {
      DelayInRounds(t, a, n - 1);
      assert n * (a.discovery + t.retryBackoff)
          == (n - 1) * (a.discovery + t.retryBackoff) + (a.discovery + t.retryBackoff);
    }
  }

  /**
  The gateway's constants in full, for every life of a token and any number of failures in a row: all the rounds of
  discovery and 30 seconds, and the last discovery, fit into what is left of the token when the loop wakes. That is two
  minutes, but less for tokens so short that the loop sleeps its shortest, one minute, and more for tokens so long that
  it sleeps its longest, half an hour.
  */
  lemma GatewayExactly(discovery: nat, minLeft: nat, failures: nat)
    ensures NeverLapses(GATEWAY, Assumed(discovery, minLeft, failures)) <==>
            failures * (discovery + 30 * SECOND) + discovery <=
              if minLeft <= 180 * SECOND then minLeft - 60 * SECOND
              else if minLeft <= 1920 * SECOND then 120 * SECOND
              else minLeft - 1800 * SECOND
  {
    NeverLapsesExactly(GATEWAY, Assumed(discovery, minLeft, failures));
    DelayInRounds(GATEWAY, Assumed(discovery, minLeft, failures), failures);
  }
}
