/**
The gateway's self-config loop (main.go): owners submit configurations at any moment, from any number of requests at
once, and one loop discovers the vault constellation for the latest configuration and installs a session for it.

The system is a state machine over interleaved steps. A submission takes two steps, the write of the configuration
under the lock and the send on the capacity-1 channel, and other steps may come between them.
*/
module ConfigLoop {
  import opened Wrappers

  /** Durations and times are counted in nanoseconds, as Go's `time.Duration` does. */
  const SECOND: int := 1_000_000_000
  const MINUTE: int := 60 * SECOND

  /** The loop's constants. */
  datatype Timing = Timing(maxRefresh: int, minRefresh: int, retryBackoff: int, expiryMargin: int)

  const GATEWAY: Timing := Timing(30 * MINUTE, MINUTE, 30 * SECOND, 2 * MINUTE)

  datatype Config = Config(mgmtUrl: string, vaultId: string)

  /** What a discovery returns. */
  datatype Discovery = Discovery(
    ownerVaultIds: seq<string>,
    endpoints: seq<string>,
    mrenclave: string,
    attServer: string,
    attToken: string,
    expiresAt: int)  // when the attestation token lapses; 0 if unknown
  {
    predicate Owns(vaultId: string) { vaultId in ownerVaultIds }
  }

  /** A vault session, with the control-plane client it was built with. */
  datatype VaultSession = VaultSession(
    mgmtUrl: string, vaultId: string, endpoints: seq<string>, mrenclave: string, attServer: string, attToken: string)

  function SessionFor(cfg: Config, d: Discovery): VaultSession {
    VaultSession(cfg.mgmtUrl, cfg.vaultId, d.endpoints, d.mrenclave, d.attServer, d.attToken)
  }

  /** How a discovery ends: an error, a panic that the loop recovers from, or an answer. */
  datatype Outcome = Failed | Panicked | Discovered(d: Discovery)

  /** Where the loop is. `seen` counts the configurations written when the loop took its snapshot. */
  datatype Loop =
    | AtGet
    | AwaitingConfig
    | Discovering(seen: nat, start: int)
    | Sleeping(seen: nat, deadline: int)

  /** One finished attempt: the configuration it used, as its place in the order of writes, and how it ended. */
  datatype Attempt = Attempt(seen: nat, outcome: Outcome)

  datatype State = State(
    now: int,
    writes: seq<Config>,             // every configuration written so far; the last one is the current one
    unsent: nat,                     // submissions that have written and not yet sent
    token: bool,                     // the reload channel holds a token
    loop: Loop,
    session: Option<VaultSession>,   // the installed session
    handler: Option<VaultSession>,   // the session behind the installed KMIP handler
    expiry: int,                     // when the installed session's attestation token lapses
    attempts: seq<Attempt>,
    failures: nat)                   // failed discoveries since the last one that answered
  {
    function Current(): Option<Config> {
      if writes == [] then None else Some(writes[|writes| - 1])
    }
  }

  datatype Step =
    | Write(cfg: Config)
    | Send
    | Get
    | Finish(outcome: Outcome)
    | WakeByReload
    | WakeByTimer
    | Tick(elapsed: nat)

  function Init(now: int): State {
    State(now, [], 0, false, AtGet, None, None, 0, [], 0)
  }

  /** How long the loop sleeps after it installed a session whose token lapses at `expiresAt`. */
  function Refresh(t: Timing, now: int, expiresAt: int): int {
    if expiresAt > 0 then SleepFor(t, expiresAt - now) else Max(t.minRefresh, t.maxRefresh)
  }

  /** The same, by how much time the token has left. */
  function SleepFor(t: Timing, left: int): int { Max(t.minRefresh, Min(t.maxRefresh, left - t.expiryMargin)) }

  function Min(a: int, b: int): int { if a <= b then a else b }

  function Max(a: int, b: int): int { if a <= b then b else a }

  /** A wait within the longest one that ends the margin or more before the token lapses, if it is known to lapse. */
  predicate Fits(t: Timing, now: int, expiresAt: int, wait: int) {
    wait <= t.maxRefresh && (expiresAt > 0 ==> now + wait + t.expiryMargin <= expiresAt)
  }

  /** The longest wait that fits, but never less than the shortest one. */
  ghost predicate LongestFit(t: Timing, now: int, expiresAt: int, wait: int) {
    && wait >= t.minRefresh
    && (wait > t.minRefresh ==> Fits(t, now, expiresAt, wait))
    && forall x :: Fits(t, now, expiresAt, x) ==> x <= wait
  }

  /** There is one such wait, and the loop sleeps that long. */
  lemma LongestFitOnly(t: Timing, now: int, expiresAt: int, wait: int)
    ensures LongestFit(t, now, expiresAt, wait) <==> wait == Refresh(t, now, expiresAt)
  {
    var fit := if expiresAt > 0 then Min(t.maxRefresh, expiresAt - now - t.expiryMargin) else t.maxRefresh;
    assert Fits(t, now, expiresAt, fit);
  }

  /** When a step can be taken. Timers fire on time and the snapshot takes no time; a discovery may take any time. */
  predicate Enabled(s: State, step: Step) {
    match step
    case Write(_) => true
    case Send => s.unsent > 0
    case Get => s.loop.AtGet?
    case Finish(_) => s.loop.Discovering? && 0 < s.loop.seen <= |s.writes|
    case WakeByReload => (s.loop.AwaitingConfig? || s.loop.Sleeping?) && s.token
    case WakeByTimer => s.loop.Sleeping? && s.now >= s.loop.deadline
    case Tick(elapsed) =>
      match s.loop
      case AtGet => elapsed == 0
      case AwaitingConfig => true
      case Discovering(_, _) => true
      case Sleeping(_, deadline) => s.now + elapsed <= deadline || elapsed == 0
  }

  function Next(t: Timing, s: State, step: Step): State
    requires Enabled(s, step)
  {
    match step
    case Write(cfg) => s.(writes := s.writes + [cfg], unsent := s.unsent + 1)
    case Send => s.(unsent := s.unsent - 1, token := true)
    case Get =>
      s.(loop := if s.writes == [] then AwaitingConfig else Discovering(|s.writes|, s.now))
    case Finish(outcome) => Finished(t, s.(attempts := s.attempts + [Attempt(s.loop.seen, outcome)]), outcome)
    case WakeByReload => s.(token := false, loop := AtGet)
    case WakeByTimer => s.(loop := AtGet)
    case Tick(elapsed) => s.(now := s.now + elapsed)
  }

  /** The end of an attempt: what is installed, and until when the loop sleeps. */
  function Finished(t: Timing, s: State, outcome: Outcome): State
    requires s.loop.Discovering? && 0 < s.loop.seen <= |s.writes|
  {
    var seen := s.loop.seen;
    var cfg := s.writes[seen - 1];
    match outcome
    case Panicked => s.(loop := Sleeping(seen, s.now), failures := s.failures + 1)
    case Failed => s.(loop := Sleeping(seen, s.now + t.retryBackoff), failures := s.failures + 1)
    case Discovered(d) =>
      if !d.Owns(cfg.vaultId) then s.(loop := Sleeping(seen, s.now + t.maxRefresh), failures := 0)
      else
        var session := Some(SessionFor(cfg, d));
        s.(loop := Sleeping(seen, s.now + Refresh(t, s.now, d.expiresAt)),
           session := session, handler := session, expiry := d.expiresAt, failures := 0)
  }

  /** The steps can be taken one after the other from `s`. */
  predicate Runs(t: Timing, s: State, steps: seq<Step>)
    decreases |steps|
  {
    steps == [] || (Enabled(s, steps[0]) && Runs(t, Next(t, s, steps[0]), steps[1..]))
  }

  function End(t: Timing, s: State, steps: seq<Step>): State
    requires Runs(t, s, steps)
    decreases |steps|
  {
    if steps == [] then s else End(t, Next(t, s, steps[0]), steps[1..])
  }

  // ---- What every run keeps ----

  /** The attempt is a success for its configuration. */
  predicate Succeeded(writes: seq<Config>, a: Attempt)
    requires 0 < a.seen <= |writes|
  {
    a.outcome.Discovered? && a.outcome.d.Owns(writes[a.seen - 1].vaultId)
  }

  predicate KnownAttempts(writes: seq<Config>, attempts: seq<Attempt>) {
    forall i | 0 <= i < |attempts| :: 0 < attempts[i].seen <= |writes|
  }

  /** The last attempt that succeeded, by its place. */
  function LatestSuccess(writes: seq<Config>, attempts: seq<Attempt>): (i: Option<nat>)
    requires KnownAttempts(writes, attempts)
    ensures i.Some? ==> i.value < |attempts| && Succeeded(writes, attempts[i.value])
    ensures forall j | 0 <= j < |attempts| && Succeeded(writes, attempts[j]) :: i.Some? && j <= i.value
  {
    if attempts == [] then None
    else if Succeeded(writes, attempts[|attempts| - 1]) then Some(|attempts| - 1)
    else LatestSuccess(writes, attempts[..|attempts| - 1])
  }

  /** The session is the one that the latest successful attempt calls for, and so is the expiry of its token. */
  predicate IsLatest(writes: seq<Config>, attempts: seq<Attempt>, session: Option<VaultSession>, expiry: int)
    requires KnownAttempts(writes, attempts)
  {
    match LatestSuccess(writes, attempts)
    case None => session.None?
    case Some(i) =>
      var d := attempts[i].outcome.d;
      session == Some(SessionFor(writes[attempts[i].seen - 1], d)) && expiry == d.expiresAt
  }

  /** The loop works, or is about to sleep, on a configuration that has been overwritten. */
  predicate Stale(s: State) {
    match s.loop
    case AtGet => false
    case AwaitingConfig => s.writes != []
    case Discovering(seen, _) => seen < |s.writes|
    case Sleeping(seen, _) => seen < |s.writes|
  }

  predicate Inv(s: State) {
    && (Stale(s) ==> s.token || s.unsent > 0)
    && (s.loop.Discovering? ==> 0 < s.loop.seen <= |s.writes|)
    && (s.loop.Sleeping? ==> s.attempts != [] && s.attempts[|s.attempts| - 1].seen == s.loop.seen)
    && (s.loop.AwaitingConfig? ==> s.attempts == [])
    && KnownAttempts(s.writes, s.attempts)
    && IsLatest(s.writes, s.attempts, s.session, s.expiry)
    && s.handler == s.session
    && (s.writes == [] ==> s.attempts == [] && s.session.None?)
  }

  /** A new write leaves the attempts of the past what they were. */
  lemma {:induction false} LatestStable(writes: seq<Config>, cfg: Config, attempts: seq<Attempt>)
    requires KnownAttempts(writes, attempts)
    ensures KnownAttempts(writes + [cfg], attempts)
    ensures LatestSuccess(writes + [cfg], attempts) == LatestSuccess(writes, attempts)
  {
    if attempts != [] {
      LatestStable(writes, cfg, attempts[..|attempts| - 1]);
    }
  }

  lemma NextKeepsInv(t: Timing, s: State, step: Step)
    requires Inv(s) && Enabled(s, step)
    ensures Inv(Next(t, s, step))
  {
    match step {
      case Write(cfg) => LatestStable(s.writes, cfg, s.attempts);
      case Finish(outcome) => FinishKeepsInv(t, s, outcome);
      case _ =>
    }
  }

  lemma FinishKeepsInv(t: Timing, s: State, outcome: Outcome)
    requires Inv(s) && Enabled(s, Finish(outcome))
    ensures Inv(Next(t, s, Finish(outcome)))
  {
    var a := Attempt(s.loop.seen, outcome);
    var s' := Next(t, s, Finish(outcome));
    FinishFields(t, s, outcome);
    LatestSnoc(s.writes, s.attempts, a);
    assert s'.attempts[|s'.attempts| - 1] == a;
  }

  /** What the end of an attempt leaves alone, and what it changes. */
  lemma FinishFields(t: Timing, s: State, outcome: Outcome)
    requires Enabled(s, Finish(outcome))
    ensures var (s', a) := (Next(t, s, Finish(outcome)), Attempt(s.loop.seen, outcome));
            && s'.writes == s.writes && s'.unsent == s.unsent && s'.token == s.token
            && s'.attempts == s.attempts + [a] && s'.loop.Sleeping? && s'.loop.seen == s.loop.seen
            && if Succeeded(s.writes, a)
               then && s'.session == s'.handler == Some(SessionFor(s.writes[a.seen - 1], a.outcome.d))
                    && s'.expiry == a.outcome.d.expiresAt
               else s'.session == s.session && s'.handler == s.handler && s'.expiry == s.expiry
  {
  }

  lemma LatestSnoc(writes: seq<Config>, attempts: seq<Attempt>, a: Attempt)
    requires KnownAttempts(writes, attempts) && 0 < a.seen <= |writes|
    ensures KnownAttempts(writes, attempts + [a])
    ensures LatestSuccess(writes, attempts + [a]) ==
              if Succeeded(writes, a) then Some(|attempts|) else LatestSuccess(writes, attempts)
  {
    assert (attempts + [a])[..|attempts|] == attempts;
  }

  lemma {:induction false} RunKeepsInv(t: Timing, s: State, steps: seq<Step>)
    requires Inv(s) && Runs(t, s, steps)
    ensures Inv(End(t, s, steps))
    decreases |steps|
  {
    if steps != [] {
      NextKeepsInv(t, s, steps[0]);
      RunKeepsInv(t, Next(t, s, steps[0]), steps[1..]);
    }
  }

  /**
  No reconfiguration is lost. In every reachable state, a loop that holds an overwritten configuration has a token
  waiting or a submission about to send one.
  */
  lemma NoLostWakeup(t: Timing, now: int, steps: seq<Step>)
    requires Runs(t, Init(now), steps)
    ensures var s := End(t, Init(now), steps); Stale(s) ==> s.token || s.unsent > 0
  {
    RunKeepsInv(t, Init(now), steps);
  }

  /** Nothing is on its way and the loop has nothing to do but wait for its timer or a new submission. */
  predicate Quiescent(s: State) {
    !s.token && s.unsent == 0 && (s.loop.AwaitingConfig? || s.loop.Sleeping?)
  }

  /**
  Whatever the interleaving of submissions, once the system is quiet the last attempt used the latest configuration;
  if it succeeded, the installed session serves that configuration's vault.
  */
  lemma QuiescentIsCurrent(t: Timing, now: int, steps: seq<Step>)
    requires Runs(t, Init(now), steps) && Quiescent(End(t, Init(now), steps))
    ensures var s := End(t, Init(now), steps);
            && KnownAttempts(s.writes, s.attempts)
            && (s.writes != [] ==>
                  && s.attempts != []
                  && s.attempts[|s.attempts| - 1].seen == |s.writes|
                  && (Succeeded(s.writes, s.attempts[|s.attempts| - 1]) ==>
                        s.session.Some? && s.session.value.vaultId == s.Current().value.vaultId))
            && (s.writes == [] ==> s.session.None? && s.handler.None?)
  {
    RunKeepsInv(t, Init(now), steps);
  }

  /** The attempt's discovery listed the vault of the attempt's configuration among the owner's vaults. */
  predicate FoundOwned(s: State, a: Attempt) {
    && 0 < a.seen <= |s.writes| && a.outcome.Discovered?
    && s.writes[a.seen - 1].vaultId in a.outcome.d.ownerVaultIds
  }

  /** The attempt accounts for all of the session: its configuration and its discovery gave it, field by field. */
  predicate Explains(s: State, a: Attempt, session: VaultSession) {
    && FoundOwned(s, a)
    && session.mgmtUrl == s.writes[a.seen - 1].mgmtUrl && session.vaultId == s.writes[a.seen - 1].vaultId
    && session.endpoints == a.outcome.d.endpoints && session.mrenclave == a.outcome.d.mrenclave
    && session.attServer == a.outcome.d.attServer && session.attToken == a.outcome.d.attToken
  }

  /**
  In every reachable state the KMIP handler and the session are one, and that session's vault was configured by an
  owner and listed as owned by the very discovery that supplied its endpoints, its measurement and its token; no later
  attempt found its vault owned, and the session's token expires when that discovery said.
  */
  lemma SessionProvenance(t: Timing, now: int, steps: seq<Step>)
    requires Runs(t, Init(now), steps)
    ensures var s := End(t, Init(now), steps);
            && s.handler == s.session
            && (s.session.Some? ==>
                  exists i | 0 <= i < |s.attempts| ::
                    && Explains(s, s.attempts[i], s.session.value) && s.expiry == s.attempts[i].outcome.d.expiresAt
                    && forall j | i < j < |s.attempts| :: !FoundOwned(s, s.attempts[j]))
            && (s.session.None? ==> forall a | a in s.attempts :: !FoundOwned(s, a))
  {
    RunKeepsInv(t, Init(now), steps);
    var s := End(t, Init(now), steps);
    assert forall j | 0 <= j < |s.attempts| :: Succeeded(s.writes, s.attempts[j]) <==> FoundOwned(s, s.attempts[j]);
    if s.session.Some? {
      var i := LatestSuccess(s.writes, s.attempts).value;
      assert Explains(s, s.attempts[i], s.session.value);
    }
  }

  // ---- Progress ----

  /** How many busy steps, which no clock has to allow, are left before the loop takes its next snapshot. */
  function BusyLeft(s: State): nat {
    s.unsent + match s.loop
               case AtGet => 0
               case AwaitingConfig => 1
               case Sleeping(_, _) => 1
               case Discovering(_, _) => 2
  }

  function Bit(b: bool): nat { if b then 1 else 0 }

  function Busy(steps: seq<Step>): nat {
    if steps == [] then 0 else Bit(!steps[0].Tick?) + Busy(steps[1..])
  }

  /** A step that the loop or a submission under way can take at once, whatever the clock says. */
  predicate CanMove(s: State) {
    Enabled(s, Get) || Enabled(s, Finish(Failed)) || Enabled(s, WakeByReload) || Enabled(s, Send)
  }

  predicate NoWrite(steps: seq<Step>) { forall i | 0 <= i < |steps| :: !steps[i].Write? }

  predicate NoGet(steps: seq<Step>) { forall i | 0 <= i < |steps| :: !steps[i].Get? }

  /** The loop holds an overwritten configuration, or is about to take a snapshot. */
  predicate Due(s: State) { s.loop.AtGet? || Stale(s) }

  /**
  A reconfiguration is never left waiting. From any reachable state whose loop holds an overwritten configuration, and
  in every continuation without a further write: the loop's next snapshot is of the latest configuration; until then
  some step is always possible that waits for no clock, for a sleeping loop the pending send or the reload; and there
  are no more such steps than `BusyLeft` says, so the snapshot cannot be put off by taking other steps.
  */
  lemma StaleRecovers(t: Timing, now: int, steps: seq<Step>, more: seq<Step>)
    requires Runs(t, Init(now), steps) && Stale(End(t, Init(now), steps))
    requires Runs(t, End(t, Init(now), steps), more) && NoWrite(more)
    ensures var s := End(t, Init(now), steps);
            var e := End(t, s, more);
            && e.writes == s.writes
            && (NoGet(more) ==>
                  && Due(e) && CanMove(e) && Busy(more) + BusyLeft(e) == BusyLeft(s)
                  && (e.loop.Sleeping? || e.loop.AwaitingConfig? ==> Enabled(e, Send) || Enabled(e, WakeByReload))
                  && (e.loop.AtGet? ==> Next(t, e, Get).loop == Discovering(|s.writes|, e.now)))
  {
    RunKeepsInv(t, Init(now), steps);
    var s := End(t, Init(now), steps);
    WritesKept(t, s, more);
    if NoGet(more) {
      StaleRuns(t, s, more);
    }
  }

  lemma StaleStep(t: Timing, s: State, step: Step)
    requires Inv(s) && Due(s) && s.writes != [] && Enabled(s, step) && !step.Write? && !step.Get?
    ensures var next := Next(t, s, step);
            next.writes == s.writes && Due(next) && Bit(!step.Tick?) + BusyLeft(next) == BusyLeft(s)
  {
  }

  lemma {:induction false} StaleRuns(t: Timing, s: State, more: seq<Step>)
    requires Inv(s) && Due(s) && s.writes != [] && Runs(t, s, more) && NoWrite(more) && NoGet(more)
    ensures var e := End(t, s, more); Inv(e) && Due(e) && Busy(more) + BusyLeft(e) == BusyLeft(s)
    decreases |more|
  {
    if more != [] {
      var rest := more[1..];
      NextKeepsInv(t, s, more[0]);
      StaleStep(t, s, more[0]);
      assert forall i | 0 <= i < |rest| :: rest[i] == more[i + 1];
      StaleRuns(t, Next(t, s, more[0]), rest);
    }
  }

  lemma {:induction false} WritesKept(t: Timing, s: State, more: seq<Step>)
    requires Runs(t, s, more) && NoWrite(more)
    ensures End(t, s, more).writes == s.writes
    decreases |more|
  {
    if more != [] {
      assert forall i | 0 <= i < |more| - 1 :: more[1..][i] == more[i + 1];
      WritesKept(t, Next(t, s, more[0]), more[1..]);
    }
  }

  function Writes(steps: seq<Step>): nat {
    if steps == [] then 0 else Bit(steps[0].Write?) + Writes(steps[1..])
  }

  function ReloadWakes(steps: seq<Step>): nat {
    if steps == [] then 0 else Bit(steps[0].WakeByReload?) + ReloadWakes(steps[1..])
  }

  /** Tokens are never made up: reloads that interrupted the loop, and those still to come, are paid for by writes. */
  lemma {:induction false} ReloadsPaidFor(t: Timing, s: State, steps: seq<Step>)
    requires Runs(t, s, steps)
    ensures var e := End(t, s, steps);
            ReloadWakes(steps) + Bit(e.token) + e.unsent <= Writes(steps) + Bit(s.token) + s.unsent
    decreases |steps|
  {
    if steps != [] {
      ReloadsPaidFor(t, Next(t, s, steps[0]), steps[1..]);
    }
  }
}
