/**
The self-config loop as the program runs it (main.go and internal/control/server.go): objects whose fields the
submissions and the loop update. Each method is one uninterrupted stretch of the program, and its contract says
which step of the state machine it takes.
*/
module ConfigManager {
  import opened ConfigLoop
  import opened Wrappers

  /** The HTTP surface's two fields that a new session replaces together, under one lock. */
  class ControlServer {
    var sess: Option<VaultSession>
    var kmip: Option<VaultSession>

    constructor ()
      ensures sess.None? && kmip.None?
    {
      sess, kmip := None, None;
    }

    method SetSession(v: VaultSession, k: VaultSession)
      modifies this
      ensures sess == Some(v) && kmip == Some(k)
    {
      sess := Some(v);
      kmip := Some(k);
    }
  }

  class Manager {
    var cfg: Option<Config>
    var reload: bool  // the capacity-1 channel: whether it holds a token
    const server: ControlServer
    const timing: Timing
    ghost var state: State

    ghost predicate Valid()
      reads this, server
    {
      && cfg == state.Current() && reload == state.token
      && server.sess == state.session && server.kmip == state.handler
    }

    constructor (timing: Timing, now: int)
      ensures Valid() && fresh(server) && this.timing == timing && state == Init(now)
    {
      cfg, reload := None, false;
      server := new ControlServer();
      this.timing := timing;
      state := Init(now);
    }

    /** The first half of `set`, under the lock. */
    method SetConfig(c: Config)
      requires Valid()
      modifies this
      ensures Valid() && state == Next(timing, old(state), Write(c))
    {
      cfg := Some(c);
      state := Next(timing, state, Write(c));
    }

    /** The second half of `set`: a send that does not wait when the channel is full. */
    method Notify()
      requires Valid() && Enabled(state, Send)
      modifies this
      ensures Valid() && state == Next(timing, old(state), Send)
    {
      if !reload {
        reload := true;
      }
      state := Next(timing, state, Send);
    }

    /** The loop takes its snapshot; without a configuration it waits for the first one. */
    method Snapshot() returns (c: Option<Config>)
      requires Valid() && Enabled(state, Get)
      modifies this
      ensures Valid() && state == Next(timing, old(state), Get)
      ensures c == state.Current()
      ensures c.None? <==> state.loop.AwaitingConfig?
    {
      c := cfg;
      state := Next(timing, state, Get);
    }

    /** The rest of an attempt once its discovery has ended; `sleep` is how long the loop waits before the next one. */
    method FinishAttempt(c: Config, outcome: Outcome, now: int) returns (sleep: int)
      requires Valid() && Enabled(state, Finish(outcome))
      requires now == state.now && c == state.writes[state.loop.seen - 1]
      modifies this, server
      ensures Valid() && state == Next(timing, old(state), Finish(outcome))
      ensures state.loop == Sleeping(old(state).loop.seen, now + sleep)
      ensures outcome.Panicked? ==> sleep == 0
      ensures outcome.Failed? ==> sleep == timing.retryBackoff
      ensures outcome.Discovered? && c.vaultId !in outcome.d.ownerVaultIds ==> sleep == timing.maxRefresh
      ensures !outcome.Discovered? || c.vaultId !in outcome.d.ownerVaultIds ==>
                server.sess == old(server.sess) && server.kmip == old(server.kmip)
      ensures outcome.Discovered? && c.vaultId in outcome.d.ownerVaultIds ==>
                && LongestFit(timing, now, outcome.d.expiresAt, sleep)
                && server.sess.Some? && server.kmip == server.sess
                && server.sess.value.mgmtUrl == c.mgmtUrl && server.sess.value.vaultId == c.vaultId
                && server.sess.value.endpoints == outcome.d.endpoints
                && server.sess.value.mrenclave == outcome.d.mrenclave
                && server.sess.value.attServer == outcome.d.attServer
                && server.sess.value.attToken == outcome.d.attToken
    {
      match outcome {
        case Panicked =>
          sleep := 0;
        case Failed =>
          sleep := timing.retryBackoff;
        case Discovered(d) =>
          var owned := Owns(d, c.vaultId);
          if !owned {
            sleep := timing.maxRefresh;
          } else {
            var session := SessionFor(c, d);
            server.SetSession(session, session);
            sleep := RefreshIn(d.expiresAt, now);
            LongestFitOnly(timing, now, d.expiresAt, sleep);
          }
      }
      state := Next(timing, state, Finish(outcome));
    }

    /**
    The wait before the next discovery: at least the shortest one, at most the longest one, over before the margin of
    the token's life begins unless it is the shortest, and no wait that meets the last two is longer.
    */
    method RefreshIn(expiresAt: int, now: int) returns (next: int)
      ensures next >= timing.minRefresh
      ensures timing.minRefresh <= timing.maxRefresh ==> next <= timing.maxRefresh
      ensures expiresAt > 0 && next > timing.minRefresh ==> now + next <= expiresAt - timing.expiryMargin
      ensures LongestFit(timing, now, expiresAt, next)
    {
      next := timing.maxRefresh;
      if expiresAt > 0 {
        var until := expiresAt - timing.expiryMargin - now;
        if until < next {
          next := until;
        }
      }
      if next < timing.minRefresh {
        next := timing.minRefresh;
      }
    }

    /** The loop receives from the reload channel. */
    method ReceiveReload()
      requires Valid() && Enabled(state, WakeByReload)
      modifies this
      ensures Valid() && state == Next(timing, old(state), WakeByReload)
    {
      reload := false;
      state := Next(timing, state, WakeByReload);
    }
  }

  /** Whether a vault is among the owner's vaults. */
  method Owns(d: Discovery, vaultId: string) returns (owned: bool)
    ensures owned <==> vaultId in d.ownerVaultIds
  {
    for i := 0 to |d.ownerVaultIds|
      invariant vaultId !in d.ownerVaultIds[..i]
    {
      if d.ownerVaultIds[i] == vaultId {
        return true;
      }
    }
    owned := false;
  }
}
