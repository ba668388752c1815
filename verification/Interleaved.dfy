/**
The same operations in flight at once, as concurrent requests run them: each visit to a vault is a step of its own, and
any steps of other operations may come between two visits (internal/vault/session.go). A create or delete whose call
failed may still land later, even after its operation has replied. At no point does a key have two holders, and the
operations are linearizable: each acts on the one map from handle to key in one of its own steps.
*/
module Interleaved {
  import opened KeyRuns
  import opened KeyStore
  import opened Session
  import opened Vaults
  import opened Wrappers

  /**
  An operation under way or finished: the visits made so far, and what the program's loop remembers of them. `done`
  says a create took effect and was answered, or that some visit of a destroy deleted the key; `failed` that some
  visit of a destroy failed with anything but "not found"; `landed` that a create took effect after its call failed.
  */
  datatype Flight = Flight(
    call: Step, visits: nat, answer: Option<Answer>, done: bool, failed: bool, landed: bool, reply: Option<Reply>)

  /** Operations are numbered in the order in which they start. */
  datatype State = State(world: World, flights: seq<Flight>)

  /** `Land` is the late effect of a visit whose call failed without effect at the time. */
  datatype Move = Start(call: Step) | Visit(id: nat) | Finish(id: nat) | Land(id: nat, visit: nat)

  function Launched(call: Step): Flight { Flight(call, 0, None, false, false, false, None) }

  /** The loop goes on to one more visit. */
  predicate MoreVisits(f: Flight) {
    match f.call
    case Create(_, _, _, grant, _, _) => Usable(grant) && f.visits == 0
    case Use(s, _, _, _) => s.policyOk && f.visits < |s.endpoints| && f.answer.None?
    case Destroy(s, _, _) => s.policyOk && f.visits < |s.endpoints|
  }

  predicate MissedEffect(f: Fault) { f.CallFails? && !f.applied }

  /** The visit's call failed and can still take effect: a create's once, a delete's any number of times. */
  predicate CanLand(f: Flight, visit: nat) {
    visit < f.visits &&
    match f.call
    case Create(_, _, _, grant, fault, _) => Usable(grant) && MissedEffect(fault) && !f.landed
    case Use(_, _, _, _) => false
    case Destroy(s, _, faults) => visit < |s.endpoints| && MissedEffect(faults(visit))
  }

  predicate Enabled(s: State, move: Move) {
    match move
    case Start(_) => true
    case Visit(id) => id < |s.flights| && s.flights[id].reply.None? && MoreVisits(s.flights[id])
    case Finish(id) => id < |s.flights| && s.flights[id].reply.None? && !MoreVisits(s.flights[id])
    case Land(id, visit) => id < |s.flights| && CanLand(s.flights[id], visit)
  }

  function Owner(s: State, move: Move): nat { if move.Start? then |s.flights| else move.id }

  /** The world after the operation's next visit. */
  function VisitedWorld(w: World, f: Flight): World
    requires MoreVisits(f)
  {
    match f.call
    case Create(_, _, key, grant, fault, overwrites) => w.(vaults := Placed(w.vaults, grant, key, fault, overwrites))
    case Use(_, _, _, _) => w
    case Destroy(s, name, faults) => DeletedAt(w, s.endpoints[f.visits], s.HandleOf(name), faults(f.visits))
  }

  function DeletedAt(w: World, ep: Endpoint, h: Handle, fault: Fault): World {
    w.(vaults := Visited(w.vaults, ep, h, fault))
  }

  /** The world after a visit's late effect. */
  function LandedWorld(w: World, f: Flight, visit: nat): World
    requires CanLand(f, visit)
  {
    match f.call
    case Create(_, _, key, grant, _, overwrites) => w.(vaults := Placed(w.vaults, grant, key, Works, overwrites))
    case Use(_, _, _, _) => w
    case Destroy(s, name, _) => DeletedAt(w, s.endpoints[visit], s.HandleOf(name), Works)
  }

  /** What the loop remembers after its next visit. */
  function VisitedFlight(w: World, f: Flight): Flight
    requires MoreVisits(f)
  {
    var g := f.(visits := f.visits + 1);
    match f.call
    case Create(_, _, _, _, _, _) => g.(done := ReplyTo(w, f.call).Done?)
    case Use(s, name, op, faults) =>
      var answers := Answers(w.vaults, s.endpoints, s.HandleOf(name), op, faults, f.visits);
      if !answers then g
      else
        var keys := KeysAt(w.vaults, s.endpoints[f.visits]);
        g.(answer := Some(Ask(keys, s.HandleOf(name), op, faults(f.visits)).value))
    case Destroy(s, name, faults) =>
      var deletes := faults(f.visits).Works? && Holds(w.vaults, s.endpoints[f.visits], s.HandleOf(name));
      g.(done := f.done || deletes, failed := f.failed || FailsHard(faults, f.visits))
  }

  function FinalReply(f: Flight): Reply {
    match f.call
    case Create(_, _, _, _, _, _) => if f.done then Done else Refused
    case Use(_, _, _, _) => if f.answer.Some? then Answered(f.answer.value) else Refused
    case Destroy(s, _, _) => if s.policyOk && (f.done || !f.failed) then Done else Refused
  }

  function Next(s: State, move: Move): State
    requires Enabled(s, move)
  {
    match move
    case Start(call) => State(Begun(s.world, call), s.flights + [Launched(call)])
    case Visit(id) =>
      State(VisitedWorld(s.world, s.flights[id]), s.flights[id := VisitedFlight(s.world, s.flights[id])])
    case Finish(id) => s.(flights := s.flights[id := s.flights[id].(reply := Some(FinalReply(s.flights[id])))])
    case Land(id, visit) =>
      State(LandedWorld(s.world, s.flights[id], visit), s.flights[id := s.flights[id].(landed := true)])
  }

  /** A create starts with the platform's grant. */
  function Begun(w: World, call: Step): World {
    if call.Create? && Usable(call.grant) then w.(granted := w.granted[call.grant.handle := call.grant.endpoints[0]])
    else w
  }

  /** The k-th move leads from one state to the next. Of the surroundings, only the platform's grants are assumed. */
  ghost predicate StepAt(states: seq<State>, moves: seq<Move>, k: nat)
    requires k < |moves| && |states| == |moves| + 1
  {
    && Enabled(states[k], moves[k]) && states[k + 1] == Next(states[k], moves[k])
    && (moves[k].Start? ==> Permitted(states[k].world, moves[k].call))
  }

  /** A run: every state follows from the one before it by the move between them. */
  ghost predicate IsRun(states: seq<State>, moves: seq<Move>) {
    && |states| == |moves| + 1 && states[0].flights == []
    && forall k | 0 <= k < |moves| :: StepAt(states, moves, k)
  }

  // ---- One step ----

  /** The grant that a create started with still stands. */
  predicate GrantStands(w: World, call: Step) {
    call.Create? && Usable(call.grant) ==>
      && call.grant.handle == call.Target()
      && call.Target() in w.granted && w.granted[call.Target()] == call.grant.endpoints[0]
  }

  ghost predicate Sound(s: State) {
    Inv(s.world) && forall id | 0 <= id < |s.flights| :: GrantStands(s.world, s.flights[id].call)
  }

  /** The operation that takes a step. */
  function Call(s: State, move: Move): Step
    requires Enabled(s, move)
  {
    if move.Start? then move.call else s.flights[move.id].call
  }

  /** Grants are never withdrawn or moved. */
  predicate GrantsKept(w: World, w': World) {
    forall h | h in w.granted :: h in w'.granted && w'.granted[h] == w.granted[h]
  }

  /** A create call that arrives at its vault, with any fault. */
  lemma PlaceRefines(w: World, call: Step)
    requires Inv(w) && call.Create? && Usable(call.grant) && GrantStands(w, call)
    ensures var w' := w.(vaults := Placed(w.vaults, call.grant, call.key, call.fault, call.overwrites));
            && Inv(w')
            && StoreStep(Store(w), call, ReplyTo(w, call), Store(w')) && StoreStep(Store(w), call, Refused, Store(w'))
            && (!TakesEffect(call.fault) ==> Store(w') == Store(w))
  {
    assert w.granted[call.grant.handle := call.grant.endpoints[0]] == w.granted;
    CreateRefines(w, call);
  }

  /** A delete call that arrives at a vault, with any fault. */
  lemma DeleteRefines(w: World, ep: Endpoint, h: Handle, fault: Fault)
    requires Inv(w)
    ensures var w' := DeletedAt(w, ep, h, fault);
            && Inv(w')
            && (Store(w') == Store(w) || Store(w') == Store(w) - {h})
            && (!fault.DialFails? && TakesEffect(fault) ==> !Holds(w'.vaults, ep, h))
            && (Holds(w'.vaults, ep, h) ==> Holds(w.vaults, ep, h))
  {
    var w' := DeletedAt(w, ep, h, fault);
    forall e
      ensures KeysAt(w'.vaults, e) == KeysAt(w.vaults, e) ||
              (e == ep && KeysAt(w'.vaults, e) == KeysAt(w.vaults, e) - {h})
    {
    }
    LessInStore(w, w', h);
  }

  lemma StartKeeps(w: World, call: Step)
    requires Inv(w) && Permitted(w, call)
    ensures var w' := Begun(w, call);
            Inv(w') && Store(w') == Store(w) && GrantsKept(w, w') && GrantStands(w', call)
  {
    if call.Create? && Usable(call.grant) {
      PutInStore(w, Begun(w, call), false, call.grant.endpoints[0], call.grant.handle, call.key);
    }
  }

  lemma LandRefines(w: World, f: Flight, visit: nat)
    requires Inv(w) && CanLand(f, visit) && GrantStands(w, f.call)
    ensures Inv(LandedWorld(w, f, visit))
    ensures StoreStep(Store(w), f.call, Refused, Store(LandedWorld(w, f, visit)))
  {
    match f.call {
      case Create(_, _, _, _, _, _) => PlaceRefines(w, f.call.(fault := Works));
      case Use(_, _, _, _) =>
      case Destroy(s, _, _) => DeleteRefines(w, s.endpoints[visit], f.call.Target(), Works);
    }
  }

  lemma VisitRefines(w: World, f: Flight)
    requires Inv(w) && MoreVisits(f) && GrantStands(w, f.call)
    ensures Inv(VisitedWorld(w, f))
    ensures StoreStep(Store(w), f.call, Refused, Store(VisitedWorld(w, f)))
  {
    match f.call {
      case Create(_, _, _, _, _, _) => PlaceRefines(w, f.call);
      case Use(_, _, _, _) =>
      case Destroy(s, _, faults) => DeleteRefines(w, s.endpoints[f.visits], f.call.Target(), faults(f.visits));
    }
  }

  /**
  Every step keeps each key on the one vault it was granted on, and changes the map from handle to key as its own
  operation may: a create may put its key there, a destroy may remove its key, a use changes nothing.
  */
  lemma MoveRefines(s: State, move: Move)
    requires Sound(s) && Enabled(s, move) && (move.Start? ==> Permitted(s.world, move.call))
    ensures Sound(Next(s, move)) && GrantsKept(s.world, Next(s, move).world)
    ensures StoreStep(Store(s.world), Call(s, move), Refused, Store(Next(s, move).world))
    ensures move.Start? || move.Finish? ==> Store(Next(s, move).world) == Store(s.world)
  {
    match move {
      case Start(call) => StartKeeps(s.world, call);
      case Visit(id) => VisitRefines(s.world, s.flights[id]);
      case Finish(id) =>
      case Land(id, visit) => LandRefines(s.world, s.flights[id], visit);
    }
  }

  lemma {:induction false} RunSound(states: seq<State>, moves: seq<Move>, n: nat)
    requires IsRun(states, moves) && Inv(states[0].world) && n <= |moves|
    ensures Sound(states[n])
  {
    if n > 0 {
      RunSound(states, moves, n - 1);
      assert StepAt(states, moves, n - 1);
      MoveRefines(states[n - 1], moves[n - 1]);
    }
  }

  /** Operations keep their numbers and calls, go on visiting, and reply once; grants are kept. */
  lemma {:induction false} LaterFlight(states: seq<State>, moves: seq<Move>, i: nat, j: nat, id: nat)
    requires IsRun(states, moves) && i <= j <= |moves|
    ensures |states[i].flights| <= |states[j].flights| && GrantsKept(states[i].world, states[j].world)
    ensures id < |states[i].flights| ==>
              var (f, g) := (states[i].flights[id], states[j].flights[id]);
              && g.call == f.call && g.visits >= f.visits && (f.reply.Some? ==> g.reply == f.reply)
              && (f.landed ==> g.landed)
    decreases j
  {
    if i < j {
      LaterFlight(states, moves, i, j - 1, id);
      assert StepAt(states, moves, j - 1);
    }
  }

  /** An operation's number and call, at one of its steps and ever after. */
  lemma CallAt(states: seq<State>, moves: seq<Move>, t: nat, n: nat, id: nat)
    requires IsRun(states, moves) && t < n <= |moves| && id == Owner(states[t], moves[t])
    ensures Enabled(states[t], moves[t]) && id < |states[n].flights|
    ensures states[n].flights[id].call == Call(states[t], moves[t])
  {
    assert StepAt(states, moves, t);
    LaterFlight(states, moves, t + 1, n, id);
  }

  /** The step with which an operation started. */
  lemma {:induction false} StartOf(states: seq<State>, moves: seq<Move>, n: nat, id: nat) returns (a: nat)
    requires IsRun(states, moves) && n <= |moves| && id < |states[n].flights|
    ensures a < n && moves[a].Start? && |states[a].flights| == id && states[n].flights[id].call == moves[a].call
  {
    assert StepAt(states, moves, n - 1);
    if id < |states[n - 1].flights| {
      a := StartOf(states, moves, n - 1, id);
    } else {
      a := n - 1;
    }
  }

  // ---- Where an operation acts ----

  /** The t-th step is the operation's own, and does to the map what the operation does when it replies so. */
  ghost predicate ActsAt(states: seq<State>, moves: seq<Move>, t: nat, id: nat, reply: Reply) {
    && t < |moves| && |states| == |moves| + 1
    && Enabled(states[t], moves[t]) && Owner(states[t], moves[t]) == id
    && StoreStep(Store(states[t].world), Call(states[t], moves[t]), reply, Store(states[t + 1].world))
  }

  ghost predicate Acted(states: seq<State>, moves: seq<Move>, n: nat, id: nat, reply: Reply) {
    exists t | 0 <= t < n :: ActsAt(states, moves, t, id, reply)
  }

  /** The visit says "not found" only of a vault that does not hold the key. */
  predicate TruthfulVisit(w: Constellation, ep: Endpoint, h: Handle, f: Fault) {
    f.CallFails? && SaysNotFound(f.text) ==> !Holds(w, ep, h)
  }

  /** So does the destroy with its k-th step, if that is a visit. */
  predicate TruthfulAt(states: seq<State>, moves: seq<Move>, k: nat, id: nat)
    requires k < |moves| && |states| == |moves| + 1
  {
    moves[k].Visit? && moves[k].id == id && id < |states[k].flights| && states[k].flights[id].call.Destroy? ==>
      var f := states[k].flights[id];
      f.visits < |f.call.s.endpoints| ==>
        TruthfulVisit(states[k].world.vaults, f.call.s.endpoints[f.visits], f.call.Target(), f.call.faults(f.visits))
  }

  /** The a-th step starts the destroy, and the key exists then. */
  predicate StartsWithKey(states: seq<State>, moves: seq<Move>, a: nat, id: nat)
    requires a < |moves| && |states| == |moves| + 1
  {
    && moves[a].Start? && moves[a].call.Destroy? && |states[a].flights| == id
    && moves[a].call.Target() in Store(states[a].world)
  }

  /**
  A destroy that does not mislead: if the key exists when it starts, its list names the vault that the key was granted
  on, and its own visits are told "not found" only by vaults that do not hold the key.
  */
  ghost predicate Honest(states: seq<State>, moves: seq<Move>, id: nat)
    requires |states| == |moves| + 1
  {
    forall a | 0 <= a < |moves| && StartsWithKey(states, moves, a, id) ::
      && states[a].world.granted[moves[a].call.Target()] in moves[a].call.s.endpoints
      && forall k | 0 <= k < |moves| :: TruthfulAt(states, moves, k, id)
  }

  /** What an operation replied can be relied on, unless it is a destroy that deleted nothing and is not honest. */
  ghost predicate Reliable(states: seq<State>, moves: seq<Move>, f: Flight, id: nat)
    requires |states| == |moves| + 1
  {
    f.call.Destroy? && f.reply == Some(Done) ==> f.done || Honest(states, moves, id)
  }

  /** The key has been granted nowhere, or on a vault that the destroy has visited. */
  predicate HolderSeen(w: World, f: Flight)
    requires f.visits <= |f.call.s.endpoints|
  {
    f.call.Target() !in w.granted || w.granted[f.call.Target()] in f.call.s.endpoints[..f.visits]
  }

  /** Whatever an operation has been told so far, or is to reply, is what it did to the map at one of its steps. */
  ghost predicate Backed(states: seq<State>, moves: seq<Move>, n: nat, w: World, f: Flight, id: nat)
    requires |states| == |moves| + 1
  {
    if f.reply.Some? then Reliable(states, moves, f, id) ==> Acted(states, moves, n, id, f.reply.value)
    else match f.call
         case Create(_, _, _, _, _, _) => f.done ==> Acted(states, moves, n, id, Done)
         case Use(_, _, _, _) => f.answer.Some? ==> Acted(states, moves, n, id, Answered(f.answer.value))
         case Destroy(s, _, _) =>
           && f.visits <= |s.endpoints|
           && (f.done ==> Acted(states, moves, n, id, Done))
           && (Honest(states, moves, id) && !f.failed && HolderSeen(w, f) ==> Acted(states, moves, n, id, Done))
  }

  ghost predicate AllBacked(states: seq<State>, moves: seq<Move>, n: nat)
    requires |states| == |moves| + 1 && n < |states|
  {
    forall id | 0 <= id < |states[n].flights| :: Backed(states, moves, n, states[n].world, states[n].flights[id], id)
  }

  /** Other operations' steps take nothing back. */
  lemma StaysBacked(states: seq<State>, moves: seq<Move>, n: nat, w: World, w': World, f: Flight, id: nat)
    requires |states| == |moves| + 1 && Backed(states, moves, n, w, f, id) && GrantsKept(w, w')
    ensures Backed(states, moves, n + 1, w', f, id)
  {
  }

  lemma StartBacked(states: seq<State>, moves: seq<Move>, n: nat, id: nat)
    requires IsRun(states, moves) && n < |moves| && StepAt(states, moves, n) && moves[n].Start?
    requires Sound(states[n]) && id == |states[n].flights|
    ensures Backed(states, moves, n + 1, states[n + 1].world, states[n + 1].flights[id], id)
  {
    var call := moves[n].call;
    if call.Destroy? && call.Target() !in states[n].world.granted {
      assert ActsAt(states, moves, n, id, Done);
    }
  }

  lemma VisitBacked(states: seq<State>, moves: seq<Move>, n: nat, id: nat)
    requires IsRun(states, moves) && n < |moves| && StepAt(states, moves, n) && moves[n] == Visit(id)
    requires Sound(states[n]) && Backed(states, moves, n, states[n].world, states[n].flights[id], id)
    ensures Backed(states, moves, n + 1, states[n + 1].world, states[n + 1].flights[id], id)
  {
    var w, f := states[n].world, states[n].flights[id];
    var g := VisitedFlight(w, f);
    assert states[n + 1].flights[id] == g;
    match f.call {
      case Create(_, _, _, _, _, _) =>
        PlaceRefines(w, f.call);
        assert g.done ==> ActsAt(states, moves, n, id, Done);
      case Use(s, name, op, faults) =>
        if g.answer.Some? {
          assert Holds(w.vaults, s.endpoints[f.visits], s.HandleOf(name));
          assert ActsAt(states, moves, n, id, Answered(g.answer.value));
        }
      case Destroy(_, _, _) => DeleteBacked(states, moves, n, id);
    }
  }

  /** A destroy's visit that leaves the key in no vault is where the destroy acts. */
  lemma GoneHere(states: seq<State>, moves: seq<Move>, n: nat, id: nat)
    requires IsRun(states, moves) && n < |moves| && StepAt(states, moves, n) && moves[n] == Visit(id)
    requires Sound(states[n]) && states[n].flights[id].call.Destroy?
    requires states[n].flights[id].call.Target() !in Store(states[n + 1].world)
    ensures Acted(states, moves, n + 1, id, Done)
  {
    VisitRefines(states[n].world, states[n].flights[id]);
    assert ActsAt(states, moves, n, id, Done);
  }

  lemma DeleteBacked(states: seq<State>, moves: seq<Move>, n: nat, id: nat)
    requires IsRun(states, moves) && n < |moves| && StepAt(states, moves, n) && moves[n] == Visit(id)
    requires Sound(states[n]) && states[n].flights[id].call.Destroy?
    requires Backed(states, moves, n, states[n].world, states[n].flights[id], id)
    ensures Backed(states, moves, n + 1, states[n + 1].world, states[n + 1].flights[id], id)
  {
    var w, f, h := states[n].world, states[n].flights[id], states[n].flights[id].call.Target();
    var ep, fault, w' := f.call.s.endpoints[f.visits], f.call.faults(f.visits), states[n + 1].world;
    var g := states[n + 1].flights[id];
    DeleteRefines(w, ep, h, fault);
    StaysBacked(states, moves, n, w, w', f, id);
    assert f.call.s.endpoints[..g.visits] == f.call.s.endpoints[..f.visits] + [ep];
    if h !in Store(w') {
      GoneHere(states, moves, n, id);
    } else if Honest(states, moves, id) && !g.failed && HolderSeen(w', g) && !HolderSeen(w, f) {
      HonestHere(states, moves, n, id);
    }
  }

  /** The honest destroy visits the vault that holds the key, or has acted when it started. */
  lemma HonestHere(states: seq<State>, moves: seq<Move>, n: nat, id: nat)
    requires IsRun(states, moves) && n < |moves| && StepAt(states, moves, n) && moves[n] == Visit(id)
    requires Sound(states[n]) && states[n].flights[id].call.Destroy? && Honest(states, moves, id)
    requires var (w, f) := (states[n].world, states[n].flights[id]);
             && f.call.Target() in Store(states[n + 1].world) && f.call.Target() in w.granted
             && w.granted[f.call.Target()] == f.call.s.endpoints[f.visits] && !FailsHard(f.call.faults, f.visits)
    ensures Acted(states, moves, n + 1, id, Done)
  {
    var f := states[n].flights[id];
    var a := StartOf(states, moves, n, id);
    if StartsWithKey(states, moves, a, id) {
      assert TruthfulAt(states, moves, n, id);
      DeleteRefines(states[n].world, f.call.s.endpoints[f.visits], f.call.Target(), f.call.faults(f.visits));
      assert false;
    }
    AbsentAtStart(states, moves, a, id);
  }

  /** A destroy that starts without the key acts right there. */
  lemma AbsentAtStart(states: seq<State>, moves: seq<Move>, a: nat, id: nat)
    requires IsRun(states, moves) && a < |moves| && moves[a].Start? && moves[a].call.Destroy?
    requires |states[a].flights| == id && !StartsWithKey(states, moves, a, id)
    ensures ActsAt(states, moves, a, id, Done)
  {
    assert StepAt(states, moves, a);
  }

  lemma FinishBacked(states: seq<State>, moves: seq<Move>, n: nat, id: nat)
    requires IsRun(states, moves) && n < |moves| && StepAt(states, moves, n) && moves[n] == Finish(id)
    requires Sound(states[n]) && Backed(states, moves, n, states[n].world, states[n].flights[id], id)
    ensures Backed(states, moves, n + 1, states[n + 1].world, states[n + 1].flights[id], id)
  {
    var w, f := states[n].world, states[n].flights[id];
    var reply := FinalReply(f);
    if reply.Refused? {
      assert ActsAt(states, moves, n, id, Refused);
    } else {
      StaysBacked(states, moves, n, w, w, f, id);
      if f.call.Destroy? && !f.done && Honest(states, moves, id) {
        HonestFinish(states, moves, n, id);
      }
    }
  }

  /** An honest destroy that finishes without a hard failure has visited the vault with the key, or acted before. */
  lemma HonestFinish(states: seq<State>, moves: seq<Move>, n: nat, id: nat)
    requires IsRun(states, moves) && n < |moves| && StepAt(states, moves, n) && moves[n] == Finish(id)
    requires Sound(states[n]) && Backed(states, moves, n, states[n].world, states[n].flights[id], id)
    requires states[n].flights[id].call.Destroy? && Honest(states, moves, id)
    requires states[n].flights[id].call.s.policyOk && !states[n].flights[id].failed
    ensures Acted(states, moves, n + 1, id, Done)
  {
    var w, f := states[n].world, states[n].flights[id];
    var a := StartOf(states, moves, n, id);
    if StartsWithKey(states, moves, a, id) {
      LaterFlight(states, moves, a, n, id);
      assert f.call.s.endpoints[..f.visits] == f.call.s.endpoints;
      assert HolderSeen(w, f);
    } else {
      AbsentAtStart(states, moves, a, id);
    }
  }

  /** Every finished operation acted on the map, as its reply says if it is reliable, in one of its own steps. */
  lemma {:induction false} RunBacked(states: seq<State>, moves: seq<Move>, n: nat)
    requires IsRun(states, moves) && Inv(states[0].world) && n <= |moves|
    ensures AllBacked(states, moves, n)
  {
    if n > 0 {
      var s, move := states[n - 1], moves[n - 1];
      assert StepAt(states, moves, n - 1);
      RunBacked(states, moves, n - 1);
      RunSound(states, moves, n - 1);
      MoveRefines(s, move);
      forall id | 0 <= id < |states[n].flights|
        ensures Backed(states, moves, n, states[n].world, states[n].flights[id], id)
      {
        if id != Owner(s, move) {
          StaysBacked(states, moves, n - 1, s.world, states[n].world, s.flights[id], id);
        } else {
          match move {
            case Start(_) => StartBacked(states, moves, n - 1, id);
            case Visit(_) => VisitBacked(states, moves, n - 1, id);
            case Finish(_) => FinishBacked(states, moves, n - 1, id);
            case Land(_, _) => StaysBacked(states, moves, n - 1, s.world, states[n].world, s.flights[id], id);
          }
        }
      }
    }
  }

  // ---- Linearizability ----

  ghost function Last(states: seq<State>): State
    requires states != []
  {
    states[|states| - 1]
  }

  /** The t-th step is the operation's own and changes the map. */
  ghost predicate ChangesAt(states: seq<State>, moves: seq<Move>, t: nat, id: nat) {
    && t < |moves| && |states| == |moves| + 1 && Owner(states[t], moves[t]) == id
    && Store(states[t + 1].world) != Store(states[t].world)
  }

  /** A step that changes the map is all that its operation does, whatever it will reply. */
  lemma ChangeActs(states: seq<State>, moves: seq<Move>, t: nat, id: nat, reply: Reply)
    requires IsRun(states, moves) && Inv(states[0].world) && ChangesAt(states, moves, t, id)
    ensures (moves[t].Visit? || moves[t].Land?) && moves[t].id == id && ActsAt(states, moves, t, id, reply)
  {
    assert StepAt(states, moves, t);
    RunSound(states, moves, t);
    MoveRefines(states[t], moves[t]);
  }

  /** A create takes effect at its visit or lands later, and changes the map at most once. */
  lemma CreateChangesOnce(states: seq<State>, moves: seq<Move>, t: nat, t': nat, id: nat)
    requires IsRun(states, moves) && Inv(states[0].world)
    requires ChangesAt(states, moves, t, id) && ChangesAt(states, moves, t', id) && t < t'
    ensures id < |states[t].flights| && !states[t].flights[id].call.Create?
  {
    ChangeActs(states, moves, t, id, Refused);
    ChangeActs(states, moves, t', id, Refused);
    assert StepAt(states, moves, t) && StepAt(states, moves, t');
    LaterFlight(states, moves, t, t', id);
    LaterFlight(states, moves, t + 1, t', id);
    if states[t].flights[id].call.Create? {
      EffectAtVisit(states, moves, t, id);
      EffectAtVisit(states, moves, t', id);
      assert false;
    }
  }

  /** A create's visit that changes the map took effect then. */
  lemma EffectAtVisit(states: seq<State>, moves: seq<Move>, t: nat, id: nat)
    requires IsRun(states, moves) && Inv(states[0].world) && ChangesAt(states, moves, t, id)
    requires id < |states[t].flights| && states[t].flights[id].call.Create?
    ensures moves[t].Visit? ==> TakesEffect(states[t].flights[id].call.fault)
  {
    assert StepAt(states, moves, t);
    RunSound(states, moves, t);
    if moves[t].Visit? {
      PlaceRefines(states[t].world, states[t].flights[id].call);
    }
  }

  /** The last of the first n steps at which the operation changes the map. */
  ghost function LastChange(states: seq<State>, moves: seq<Move>, n: nat, id: nat): (t: Option<nat>)
    ensures t.Some? ==> t.value < n && ChangesAt(states, moves, t.value, id)
    ensures forall k | 0 <= k < n && ChangesAt(states, moves, k, id) :: t.Some? && k <= t.value
  {
    if n == 0 then None
    else if ChangesAt(states, moves, n - 1, id) then Some(n - 1)
    else LastChange(states, moves, n - 1, id)
  }

  /** What an operation's reply tells in the end; without a reliable one it happened or not, as after a refusal. */
  ghost function ToldBy(states: seq<State>, moves: seq<Move>, id: nat): Reply
    requires |states| == |moves| + 1 && id < |Last(states).flights|
  {
    var f := Last(states).flights[id];
    if f.reply.Some? && Reliable(states, moves, f, id) then f.reply.value else Refused
  }

  /** The step at which an operation acts: the last that changes the map, or else one that bears its reply out. */
  ghost function PointOf(states: seq<State>, moves: seq<Move>, id: nat): nat
    requires |states| == |moves| + 1 && id < |Last(states).flights|
  {
    var change := LastChange(states, moves, |moves|, id);
    if change.Some? then change.value
    else if t: nat :|
              Last(states).flights[id].reply.Some? && ActsAt(states, moves, t, id, ToldBy(states, moves, id)) then t
    else |moves|
  }

  /** When it starts, an operation has not happened yet. */
  lemma StartRefused(states: seq<State>, moves: seq<Move>, a: nat)
    requires IsRun(states, moves) && Inv(states[0].world) && a < |moves| && moves[a].Start?
    ensures ActsAt(states, moves, a, |states[a].flights|, Refused)
  {
    assert StepAt(states, moves, a);
    RunSound(states, moves, a);
    MoveRefines(states[a], moves[a]);
  }

  lemma PointActs(states: seq<State>, moves: seq<Move>, id: nat)
    requires IsRun(states, moves) && Inv(states[0].world) && id < |Last(states).flights|
    ensures var t := PointOf(states, moves, id);
            && (t < |moves| ==> ActsAt(states, moves, t, id, ToldBy(states, moves, id)))
            && (Last(states).flights[id].reply.Some? ==> t < |moves|)
            && forall t': nat :: ChangesAt(states, moves, t', id) ==> t' <= t && ChangesAt(states, moves, t, id)
  {
    RunBacked(states, moves, |moves|);
    assert Backed(states, moves, |moves|, Last(states).world, Last(states).flights[id], id);
    var change := LastChange(states, moves, |moves|, id);
    if change.Some? {
      ChangeActs(states, moves, change.value, id, ToldBy(states, moves, id));
    } else if Last(states).flights[id].reply.Some? {
      if Reliable(states, moves, Last(states).flights[id], id) {
        var t: nat :| t < |moves| && ActsAt(states, moves, t, id, ToldBy(states, moves, id));
      } else {
        var a := StartOf(states, moves, |moves|, id);
        StartRefused(states, moves, a);
        assert ActsAt(states, moves, a, id, ToldBy(states, moves, id));
      }
    }
  }

  function Calls(s: State, ids: seq<nat>): (r: seq<Step>)
    requires forall i | 0 <= i < |ids| :: ids[i] < |s.flights|
    ensures |r| == |ids|
  {
    if ids == [] then [] else Calls(s, ids[..|ids| - 1]) + [s.flights[ids[|ids| - 1]].call]
  }

  ghost function Tolds(states: seq<State>, moves: seq<Move>, ids: seq<nat>): (r: seq<Reply>)
    requires |states| == |moves| + 1 && forall i | 0 <= i < |ids| :: ids[i] < |Last(states).flights|
    ensures |r| == |ids|
  {
    if ids == [] then [] else Tolds(states, moves, ids[..|ids| - 1]) + [ToldBy(states, moves, ids[|ids| - 1])]
  }

  lemma {:induction false} StoreRunSnoc(m: Keys, steps: seq<Step>, replies: seq<Reply>, m': Keys,
                                        step: Step, reply: Reply, m'': Keys)
    requires |replies| == |steps| && StoreRun(m, steps, replies, m') && StoreStep(m', step, reply, m'')
    ensures StoreRun(m, steps + [step], replies + [reply], m'')
    decreases |steps|
  {
    if steps == [] {
      assert (steps + [step])[1..] == [] && (replies + [reply])[1..] == [];
      assert StoreRun(m'', [], [], m'');
    } else {
      var next :| StoreStep(m, steps[0], replies[0], next) && StoreRun(next, steps[1..], replies[1..], m');
      StoreRunSnoc(next, steps[1..], replies[1..], m', step, reply, m'');
      assert (steps + [step])[1..] == steps[1..] + [step] && (replies + [reply])[1..] == replies[1..] + [reply];
    }
  }

  /** Steps in order, each of them the one at which its operation acts. */
  ghost predicate Ordered(states: seq<State>, moves: seq<Move>, n: nat, points: seq<nat>, ids: seq<nat>) {
    && |states| == |moves| + 1 && n <= |moves| && |ids| == |points|
    && (forall i | 0 <= i < |points| ::
          && points[i] < n && ids[i] == Owner(states[points[i]], moves[points[i]])
          && ids[i] < |Last(states).flights| && points[i] == PointOf(states, moves, ids[i]))
    && forall i, j | 0 <= i < j < |points| :: points[i] < points[j]
  }

  /** What a step does, told by the call and the reply that its operation has in the end. */
  lemma StepTold(states: seq<State>, moves: seq<Move>, t: nat, id: nat)
    requires IsRun(states, moves) && Inv(states[0].world)
    requires t < |moves| && id == Owner(states[t], moves[t])
    ensures id < |Last(states).flights|
    ensures var (m, m', end) := (Store(states[t].world), Store(states[t + 1].world), Last(states));
            var (call, point) := (end.flights[id].call, PointOf(states, moves, id));
            && StoreStep(m, call, if point == t then ToldBy(states, moves, id) else Refused, m')
            && (m' != m ==> point >= t && ChangesAt(states, moves, point, id))
            && (m' != m && point != t ==> call.Destroy?)
  {
    CallAt(states, moves, t, |moves|, id);
    assert StepAt(states, moves, t);
    RunSound(states, moves, t);
    MoveRefines(states[t], moves[t]);
    PointActs(states, moves, id);
    if ChangesAt(states, moves, t, id) && PointOf(states, moves, id) != t {
      CreateChangesOnce(states, moves, t, PointOf(states, moves, id), id);
    }
  }

  lemma PointOwner(states: seq<State>, moves: seq<Move>, id: nat)
    requires IsRun(states, moves) && Inv(states[0].world)
    requires id < |Last(states).flights| && PointOf(states, moves, id) < |moves|
    ensures Owner(states[PointOf(states, moves, id)], moves[PointOf(states, moves, id)]) == id
  {
    PointActs(states, moves, id);
  }

  /** A destroy that has still to act, and whose acting removes the key. */
  ghost predicate WillRemove(states: seq<State>, moves: seq<Move>, n: nat, id: nat, h: Handle)
    requires |states| == |moves| + 1
  {
    && id < |Last(states).flights|
    && Last(states).flights[id].call.Destroy? && Last(states).flights[id].call.Target() == h
    && PointOf(states, moves, id) >= n && ChangesAt(states, moves, PointOf(states, moves, id), id)
  }

  /**
  How the map that the operations make up in order, `m`, stands to the store after n steps: it holds all that the store
  does, and what more it holds some destroy is still to remove, having removed it once already.
  */
  ghost predicate Covers(states: seq<State>, moves: seq<Move>, n: nat, m: Keys)
    requires |states| == |moves| + 1 && n < |states|
  {
    && (forall h | h in Store(states[n].world) :: h in m && m[h] == Store(states[n].world)[h])
    && (forall h | h in m && h !in Store(states[n].world) :: exists id :: WillRemove(states, moves, n, id, h))
  }

  /** What one map does at an operation's point, whether or not the store changes there. */
  function Applied(m: Keys, call: Step, reply: Reply, changed: bool): Keys {
    if !reply.Done? && !changed then m
    else match call
         case Create(_, _, key, _, _, _) => m[call.Target() := key]
         case Use(_, _, _, _) => m
         case Destroy(_, _, _) => m - {call.Target()}
  }

  /** Applied to a larger map, an operation does the same there and leaves it the larger one. */
  lemma AppliedLarger(m: Keys, was: Keys, call: Step, reply: Reply, after: Keys, m': Keys)
    requires forall h | h in was :: h in m && m[h] == was[h]
    requires StoreStep(was, call, reply, after) && m' == Applied(m, call, reply, after != was)
    ensures StoreStep(m, call, reply, m')
    ensures forall h | h in after :: h in m' && m'[h] == after[h]
    ensures forall h | h in m' && h !in after :: h in m && h !in was && (after != was ==> h != call.Target())
  {
  }

  /** A step that is not its operation's point leaves the larger map alone. */
  lemma UnappliedLarger(m: Keys, was: Keys, call: Step, after: Keys)
    requires forall h | h in was :: h in m && m[h] == was[h]
    requires StoreStep(was, call, Refused, after) && (after != was ==> call.Destroy?)
    ensures forall h | h in after :: h in m && m[h] == after[h]
    ensures forall h | h in m && h !in after :: h !in was || (after != was && h == call.Target())
  {
  }

  lemma CoversPoint(states: seq<State>, moves: seq<Move>, t: nat, id: nat, m: Keys)
      returns (m': Keys)
    requires IsRun(states, moves) && Inv(states[0].world) && t < |moves| && Covers(states, moves, t, m)
    requires id == Owner(states[t], moves[t]) && id < |Last(states).flights| && PointOf(states, moves, id) == t
    ensures StoreStep(m, Last(states).flights[id].call, ToldBy(states, moves, id), m')
    ensures Covers(states, moves, t + 1, m')
  {
    var n, end := t + 1, Last(states);
    StepTold(states, moves, t, id);
    var was, after := Store(states[t].world), Store(states[n].world);
    var call, reply := end.flights[id].call, ToldBy(states, moves, id);
    m' := Applied(m, call, reply, after != was);
    AppliedLarger(m, was, call, reply, after, m');
    forall h | h in m' && h !in after
      ensures exists x :: WillRemove(states, moves, n, x, h)
    {
      var x :| WillRemove(states, moves, t, x, h);
      StillToRemove(states, moves, t, x, h);
    }
  }

  lemma CoversOther(states: seq<State>, moves: seq<Move>, t: nat, id: nat, m: Keys)
    requires IsRun(states, moves) && Inv(states[0].world) && t < |moves| && Covers(states, moves, t, m)
    requires id == Owner(states[t], moves[t]) && id < |Last(states).flights| && PointOf(states, moves, id) != t
    ensures Covers(states, moves, t + 1, m)
  {
    var n, end := t + 1, Last(states);
    StepTold(states, moves, t, id);
    var was, after, call := Store(states[t].world), Store(states[n].world), end.flights[id].call;
    UnappliedLarger(m, was, call, after);
    forall h | h in m && h !in after
      ensures exists x :: WillRemove(states, moves, n, x, h)
    {
      if h !in was {
        var x :| WillRemove(states, moves, t, x, h);
        StillToRemove(states, moves, t, x, h);
      } else {
        assert WillRemove(states, moves, n, id, h);
      }
    }
  }

  /** A destroy that is to remove the key is so after any step that is not its own removal. */
  lemma StillToRemove(states: seq<State>, moves: seq<Move>, t: nat, x: nat, h: Handle)
    requires IsRun(states, moves) && Inv(states[0].world) && t < |moves| && WillRemove(states, moves, t, x, h)
    ensures WillRemove(states, moves, t + 1, x, h) ||
            (x == Owner(states[t], moves[t]) && PointOf(states, moves, x) == t && ChangesAt(states, moves, t, x))
  {
  }

  /** Every operation whose point is among the first n steps is listed. */
  ghost predicate ListsAll(states: seq<State>, moves: seq<Move>, n: nat, ids: seq<nat>)
    requires |states| == |moves| + 1
  {
    forall id | 0 <= id < |Last(states).flights| && PointOf(states, moves, id) < n :: id in ids
  }

  /** The operations that act in the first n steps, in the order of those steps, are a run that leads to the map `m`. */
  ghost predicate Linear(states: seq<State>, moves: seq<Move>, n: nat, points: seq<nat>, ids: seq<nat>, m: Keys) {
    && |states| == |moves| + 1 && n <= |moves|
    && Ordered(states, moves, n, points, ids) && ListsAll(states, moves, n, ids) && Covers(states, moves, n, m)
    && StoreRun(Store(states[0].world), Calls(Last(states), ids), Tolds(states, moves, ids), m)
  }

  lemma LinearNone(states: seq<State>, moves: seq<Move>)
    requires |states| == |moves| + 1
    ensures Linear(states, moves, 0, [], [], Store(states[0].world))
  {
  }

  lemma LinearPoint(states: seq<State>, moves: seq<Move>, t: nat, points: seq<nat>, ids: seq<nat>,
                    m: Keys, id: nat) returns (m': Keys)
    requires IsRun(states, moves) && Inv(states[0].world) && t < |moves|
    requires Linear(states, moves, t, points, ids, m)
    requires id == Owner(states[t], moves[t]) && id < |Last(states).flights| && PointOf(states, moves, id) == t
    ensures Linear(states, moves, t + 1, points + [t], ids + [id], m')
  {
    m' := CoversPoint(states, moves, t, id, m);
    RunOfOneMore(states, moves, Store(states[0].world), ids, m, id, m');
    OrderedMore(states, moves, t, points, ids);
    OnlyPoint(states, moves, t);
  }

  lemma LinearOther(states: seq<State>, moves: seq<Move>, t: nat, points: seq<nat>, ids: seq<nat>,
                    m: Keys, id: nat)
    requires IsRun(states, moves) && Inv(states[0].world) && t < |moves|
    requires Linear(states, moves, t, points, ids, m)
    requires id == Owner(states[t], moves[t]) && id < |Last(states).flights| && PointOf(states, moves, id) != t
    ensures Linear(states, moves, t + 1, points, ids, m)
  {
    CoversOther(states, moves, t, id, m);
    OnlyPoint(states, moves, t);
  }

  lemma LinearNext(states: seq<State>, moves: seq<Move>, t: nat, points: seq<nat>, ids: seq<nat>,
                   m: Keys) returns (points': seq<nat>, ids': seq<nat>, m': Keys)
    requires IsRun(states, moves) && Inv(states[0].world) && t < |moves|
    requires Linear(states, moves, t, points, ids, m)
    ensures Linear(states, moves, t + 1, points', ids', m')
  {
    var id: nat := Owner(states[t], moves[t]);
    CallAt(states, moves, t, |moves|, id);
    if PointOf(states, moves, id) == t {
      m' := LinearPoint(states, moves, t, points, ids, m, id);
      points', ids' := points + [t], ids + [id];
    } else {
      LinearOther(states, moves, t, points, ids, m, id);
      points', ids', m' := points, ids, m;
    }
  }

  lemma {:induction false} LinearPrefix(states: seq<State>, moves: seq<Move>, n: nat)
      returns (points: seq<nat>, ids: seq<nat>, m: Keys)
    requires IsRun(states, moves) && Inv(states[0].world) && n <= |moves|
    ensures Linear(states, moves, n, points, ids, m)
  {
    if n == 0 {
      points, ids, m := [], [], Store(states[0].world);
      LinearNone(states, moves);
    } else {
      points, ids, m := LinearPrefix(states, moves, n - 1);
      points, ids, m := LinearNext(states, moves, n - 1, points, ids, m);
    }
  }

  /** A step is the point of no operation but its own. */
  lemma OnlyPoint(states: seq<State>, moves: seq<Move>, t: nat)
    requires IsRun(states, moves) && Inv(states[0].world) && t < |moves|
    ensures forall x | 0 <= x < |Last(states).flights| && PointOf(states, moves, x) == t ::
              x == Owner(states[t], moves[t])
  {
    forall x | 0 <= x < |Last(states).flights| && PointOf(states, moves, x) == t
      ensures x == Owner(states[t], moves[t])
    {
      PointOwner(states, moves, x);
    }
  }

  lemma OrderedMore(states: seq<State>, moves: seq<Move>, t: nat, points: seq<nat>, ids: seq<nat>)
    requires t < |moves| && Ordered(states, moves, t, points, ids)
    requires var id := Owner(states[t], moves[t]); id < |Last(states).flights| && PointOf(states, moves, id) == t
    ensures Ordered(states, moves, t + 1, points + [t], ids + [Owner(states[t], moves[t])])
  {
  }

  lemma RunOfOneMore(states: seq<State>, moves: seq<Move>, m: Keys, ids: seq<nat>, m': Keys, id: nat, m'': Keys)
    requires |states| == |moves| + 1 && id < |Last(states).flights|
    requires forall i | 0 <= i < |ids| :: ids[i] < |Last(states).flights|
    requires StoreRun(m, Calls(Last(states), ids), Tolds(states, moves, ids), m')
    requires StoreStep(m', Last(states).flights[id].call, ToldBy(states, moves, id), m'')
    ensures StoreRun(m, Calls(Last(states), ids + [id]), Tolds(states, moves, ids + [id]), m'')
  {
    assert (ids + [id])[..|ids|] == ids;
    StoreRunSnoc(m, Calls(Last(states), ids), Tolds(states, moves, ids), m',
                 Last(states).flights[id].call, ToldBy(states, moves, id), m'');
  }

  /** A step of an operation comes after its start and no later than its finish, unless it is a late effect. */
  lemma OwnStepsWithin(states: seq<State>, moves: seq<Move>, t: nat, k: nat, id: nat)
    requires IsRun(states, moves) && t < |moves| && k <= |moves| && id == Owner(states[t], moves[t])
    ensures id >= |states[k].flights| ==> k <= t
    ensures id < |states[k].flights| && states[k].flights[id].reply.Some? ==> t < k || moves[t].Land?
  {
    assert StepAt(states, moves, t);
    if t < k {
      LaterFlight(states, moves, t + 1, k, id);
    } else {
      LaterFlight(states, moves, k, t, id);
    }
  }

  /** The k-th state comes between the finish of one operation and the start of another. */
  predicate Between(s: State, id: nat, later: nat) {
    id < |s.flights| <= later && s.flights[id].reply.Some?
  }

  /** None of the operation's effects lands after the first k steps. */
  predicate NothingLands(moves: seq<Move>, k: nat, id: nat) {
    forall t | k <= t < |moves| && moves[t].Land? :: moves[t].id != id
  }

  /** No state of a run has a key with two holders. */
  lemma AlwaysOneHolder(states: seq<State>, moves: seq<Move>)
    requires IsRun(states, moves) && Inv(states[0].world)
    ensures forall k, h | 0 <= k < |states| :: OneHolder(states[k].world.vaults, h)
  {
    forall k, h | 0 <= k < |states|
      ensures OneHolder(states[k].world.vaults, h)
    {
      RunSound(states, moves, k);
      InvOneHolder(states[k].world, h);
    }
  }

  /** Points in order keep the order of operations that do not overlap. */
  lemma OrderKept(states: seq<State>, moves: seq<Move>, points: seq<nat>, ids: seq<nat>)
    requires IsRun(states, moves) && Ordered(states, moves, |moves|, points, ids)
    ensures forall k, i, j | 0 <= k < |states| && 0 <= i < |ids| && 0 <= j < |ids| ::
              Between(states[k], ids[i], ids[j]) && NothingLands(moves, k, ids[i]) ==> i < j
  {
    forall k, i, j | 0 <= k < |states| && 0 <= i < |ids| && 0 <= j < |ids| &&
                     Between(states[k], ids[i], ids[j]) && NothingLands(moves, k, ids[i])
      ensures i < j
    {
      PairKept(states, moves, points, ids, k, i, j);
    }
  }

  lemma PairKept(states: seq<State>, moves: seq<Move>, points: seq<nat>, ids: seq<nat>,
                 k: nat, i: nat, j: nat)
    requires IsRun(states, moves) && Ordered(states, moves, |moves|, points, ids)
    requires k < |states| && i < |ids| && j < |ids|
    requires Between(states[k], ids[i], ids[j]) && NothingLands(moves, k, ids[i])
    ensures i < j
  {
    OwnStepsWithin(states, moves, points[i], k, ids[i]);
    OwnStepsWithin(states, moves, points[j], k, ids[j]);
  }

  /** At the end nothing is still to be removed. */
  lemma CoversAll(states: seq<State>, moves: seq<Move>, m: Keys)
    requires |states| == |moves| + 1 && Covers(states, moves, |moves|, m)
    ensures m == Store(Last(states).world)
  {
  }

  /**
  Operations in flight at once are linearizable: one of its own steps can be picked for every finished operation, so
  that the operations, taken one after the other in the order of those steps, are a run of one map from handle to key,
  by what their replies tell, from the store at the start to the store at the end. An operation that has not replied is
  left out, unless it has already changed the map. Operations that do not overlap keep their order, as long as nothing
  that the earlier one was to do lands after its reply.
  */
  lemma Linearizable(states: seq<State>, moves: seq<Move>) returns (points: seq<nat>, ids: seq<nat>)
    requires IsRun(states, moves) && Inv(states[0].world)
    ensures |ids| == |points|
    ensures forall i | 0 <= i < |points| ::
              && points[i] < |moves| && ids[i] == Owner(states[points[i]], moves[points[i]])
              && ids[i] < |Last(states).flights|
    ensures forall i, j | 0 <= i < j < |points| :: points[i] < points[j] && ids[i] != ids[j]
    ensures forall id | 0 <= id < |Last(states).flights| && Last(states).flights[id].reply.Some? :: id in ids
    ensures StoreRun(Store(states[0].world), Calls(Last(states), ids), Tolds(states, moves, ids),
                     Store(Last(states).world))
    ensures forall k, i, j | 0 <= k < |states| && 0 <= i < |ids| && 0 <= j < |ids| ::
              Between(states[k], ids[i], ids[j]) && NothingLands(moves, k, ids[i]) ==> i < j
  {
    var m: Keys;
    points, ids, m := LinearPrefix(states, moves, |moves|);
    CoversAll(states, moves, m);
    OrderKept(states, moves, points, ids);
    forall id | 0 <= id < |Last(states).flights| && Last(states).flights[id].reply.Some?
      ensures id in ids
    {
      PointActs(states, moves, id);
    }
  }

  // ---- Destroyed keys, with operations in flight ----

  /** The step takes a create of the key to a vault, or lets its late effect land there. */
  predicate Places(s: State, move: Move, h: Handle) {
    && (move.Visit? || move.Land?) && move.id < |s.flights|
    && s.flights[move.id].call.Create? && s.flights[move.id].call.Target() == h
  }

  /** No create of the key reaches a vault between the two states. */
  predicate NoPlacing(states: seq<State>, moves: seq<Move>, i: nat, j: nat, h: Handle)
    requires |states| == |moves| + 1
  {
    forall k | i <= k < j && k < |moves| :: !Places(states[k], moves[k], h)
  }

  /** Meanwhile the key stays the one it was, or goes and does not come back. */
  lemma {:induction false} KeyKept(states: seq<State>, moves: seq<Move>, i: nat, j: nat, h: Handle)
    requires IsRun(states, moves) && Inv(states[0].world) && i <= j <= |moves|
    requires NoPlacing(states, moves, i, j, h)
    ensures h in Store(states[j].world) ==>
              h in Store(states[i].world) && Store(states[j].world)[h] == Store(states[i].world)[h]
    decreases j
  {
    if i < j {
      KeyKept(states, moves, i, j - 1, h);
      KeptByStep(states, moves, j - 1, h);
    }
  }

  lemma KeptByStep(states: seq<State>, moves: seq<Move>, k: nat, h: Handle)
    requires IsRun(states, moves) && Inv(states[0].world) && k < |moves| && !Places(states[k], moves[k], h)
    ensures h in Store(states[k + 1].world) ==>
              h in Store(states[k].world) && Store(states[k + 1].world)[h] == Store(states[k].world)[h]
  {
    assert StepAt(states, moves, k);
    RunSound(states, moves, k);
    MoveRefines(states[k], moves[k]);
  }

  /** A step at which a use acts with this answer: the key is in the map, and gives the answer. */
  lemma AnswerNeedsKey(states: seq<State>, moves: seq<Move>, n: nat, id: nat, a: Answer)
      returns (t: nat)
    requires IsRun(states, moves) && n <= |moves| && Acted(states, moves, n, id, Answered(a))
    requires id < |states[n].flights| && states[n].flights[id].call.Use?
    ensures t < n && Owner(states[t], moves[t]) == id
    ensures var (call, m) := (states[n].flights[id].call, Store(states[t].world));
            call.Target() in m && call.op(m[call.Target()]) == Ok(a)
  {
    t :| t < n && ActsAt(states, moves, t, id, Answered(a));
    CallAt(states, moves, t, n, id);
  }

  /** By the n-th state the operation has used the key, and was answered. */
  predicate UsedBy(s: State, id: nat, h: Handle, a: Answer) {
    && id < |s.flights| && s.flights[id].call.Use? && s.flights[id].call.Target() == h
    && s.flights[id].reply == Some(Answered(a))
  }

  /**
  Every use of a key that starts after the i-th state and is answered by the n-th is answered by the key that the store
  holds in the i-th, as long as no create of it reaches a vault between those states.
  */
  lemma UsesOneKey(states: seq<State>, moves: seq<Move>, i: nat, n: nat, u: nat, h: Handle, a: Answer)
    requires IsRun(states, moves) && Inv(states[0].world) && i <= n <= |moves|
    requires NoPlacing(states, moves, i, n, h) && |states[i].flights| <= u && UsedBy(states[n], u, h, a)
    ensures h in Store(states[i].world) && states[n].flights[u].call.op(Store(states[i].world)[h]) == Ok(a)
  {
    RunBacked(states, moves, n);
    assert Backed(states, moves, n, states[n].world, states[n].flights[u], u);
    var t := AnswerNeedsKey(states, moves, n, u, a);
    OwnStepsWithin(states, moves, t, i, u);
    KeyKept(states, moves, i, t, h);
  }

  /** So any two such uses are answered by one and the same key. */
  lemma UsesAgree(states: seq<State>, moves: seq<Move>, i: nat, n: nat, u: nat, v: nat, h: Handle,
                  a: Answer, b: Answer) returns (key: Key)
    requires IsRun(states, moves) && Inv(states[0].world) && i <= n <= |moves|
    requires NoPlacing(states, moves, i, n, h) && |states[i].flights| <= u && |states[i].flights| <= v
    requires UsedBy(states[n], u, h, a) && UsedBy(states[n], v, h, b)
    ensures states[n].flights[u].call.op(key) == Ok(a) && states[n].flights[v].call.op(key) == Ok(b)
  {
    UsesOneKey(states, moves, i, n, u, h, a);
    UsesOneKey(states, moves, i, n, v, h, b);
    key := Store(states[i].world)[h];
  }

  /** The step at which a destroy acts with success leaves the key in no vault. */
  lemma DoneMeansGone(states: seq<State>, moves: seq<Move>, n: nat, id: nat) returns (t: nat)
    requires IsRun(states, moves) && n <= |moves| && Acted(states, moves, n, id, Done)
    requires id < |states[n].flights| && states[n].flights[id].call.Destroy?
    ensures t < n && Owner(states[t], moves[t]) == id
    ensures states[n].flights[id].call.Target() !in Store(states[t + 1].world)
  {
    t :| t < n && ActsAt(states, moves, t, id, Done);
    CallAt(states, moves, t, n, id);
  }

  /** A destroy that started with the a-th step, and has reported success by the i-th state. */
  predicate DestroyedBy(states: seq<State>, moves: seq<Move>, a: nat, i: nat)
    requires |states| == |moves| + 1
  {
    && a < i <= |moves| && moves[a].Start? && moves[a].call.Destroy?
    && |states[a].flights| < |states[i].flights| && states[i].flights[|states[a].flights|].reply == Some(Done)
  }

  /**
  That destroy has deleted the key at some visit, or there was none when it started, or its list has the key's vault
  and it was told "not found" only by vaults that do not hold the key.
  */
  ghost predicate ReliableBy(states: seq<State>, moves: seq<Move>, a: nat, i: nat)
    requires |states| == |moves| + 1 && DestroyedBy(states, moves, a, i)
  {
    var (id, h) := (|states[a].flights|, moves[a].call.Target());
    || states[i].flights[id].done || h !in Store(states[a].world)
    || (states[a].world.granted[h] in moves[a].call.s.endpoints
        && forall k | 0 <= k < |moves| :: TruthfulAt(states, moves, k, id))
  }

  /** Such a destroy is an honest one, as it starts only once. */
  lemma ReliableMeansHonest(states: seq<State>, moves: seq<Move>, a: nat, i: nat)
    requires IsRun(states, moves) && DestroyedBy(states, moves, a, i) && ReliableBy(states, moves, a, i)
    ensures states[i].flights[|states[a].flights|].done || Honest(states, moves, |states[a].flights|)
  {
    var id := |states[a].flights|;
    forall b | 0 <= b < |moves| && StartsWithKey(states, moves, b, id)
      ensures b == a
    {
      assert StepAt(states, moves, a) && StepAt(states, moves, b);
      if b < a {
        LaterFlight(states, moves, b + 1, a, 0);
      } else if a < b {
        LaterFlight(states, moves, a + 1, b, 0);
      }
    }
  }

  lemma DestroyActed(states: seq<State>, moves: seq<Move>, a: nat, i: nat)
    requires IsRun(states, moves) && Inv(states[0].world)
    requires DestroyedBy(states, moves, a, i) && ReliableBy(states, moves, a, i)
    ensures Acted(states, moves, i, |states[a].flights|, Done)
    ensures states[i].flights[|states[a].flights|].call == moves[a].call
  {
    var id := |states[a].flights|;
    CallAt(states, moves, a, i, id);
    RunBacked(states, moves, i);
    assert Backed(states, moves, i, states[i].world, states[i].flights[id], id);
    ReliableMeansHonest(states, moves, a, i);
    assert Reliable(states, moves, states[i].flights[id], id);
  }

  lemma GoneAfterDestroy(states: seq<State>, moves: seq<Move>, a: nat, i: nat, n: nat)
    requires IsRun(states, moves) && Inv(states[0].world) && i <= n <= |moves|
    requires DestroyedBy(states, moves, a, i) && ReliableBy(states, moves, a, i)
    requires NoPlacing(states, moves, a, n, moves[a].call.Target())
    ensures moves[a].call.Target() !in Store(states[n].world)
  {
    var id := |states[a].flights|;
    DestroyActed(states, moves, a, i);
    var t := DoneMeansGone(states, moves, i, id);
    OwnStepsWithin(states, moves, t, a, id);
    KeyKept(states, moves, t + 1, n, moves[a].call.Target());
  }

  /**
  After a destroy that reported a success to rely on, no use of the key that starts later is ever answered, as long as
  no create of it has reached a vault since the destroy started. Of other destroys nothing is assumed.
  */
  lemma DestroyedStaysGone(states: seq<State>, moves: seq<Move>, a: nat, i: nat, n: nat, use: nat)
    requires IsRun(states, moves) && Inv(states[0].world) && i <= n <= |moves|
    requires DestroyedBy(states, moves, a, i) && ReliableBy(states, moves, a, i)
    requires NoPlacing(states, moves, a, n, moves[a].call.Target())
    requires |states[i].flights| <= use < |states[n].flights|
    requires states[n].flights[use].call.Use? && states[n].flights[use].call.Target() == moves[a].call.Target()
    ensures var f := states[n].flights[use];
            if f.reply.Some? then !f.reply.value.Answered? else f.answer.None?
  {
    RunBacked(states, moves, n);
    assert Backed(states, moves, n, states[n].world, states[n].flights[use], use);
    if answer :| Acted(states, moves, n, use, Answered(answer)) {
      var t := AnswerNeedsKey(states, moves, n, use, answer);
      OwnStepsWithin(states, moves, t, i, use);
      GoneAfterDestroy(states, moves, a, i, t);
      assert false;
    }
  }

  // ---- One operation alone ----

  /** An operation whose steps nothing comes between, from its next visit to its last. */
  function Alone(w: World, f: Flight): (World, Flight)
    decreases if MoreVisits(f) then 1 + |f.call.s.endpoints| - f.visits else 0
  {
    if MoreVisits(f) then Alone(VisitedWorld(w, f), VisitedFlight(w, f)) else (w, f)
  }

  /** Run alone, an operation's visits do what the operation does as one step, and it replies the same. */
  lemma AloneIsAct(w: World, call: Step)
    ensures var (w', f') := Alone(Begun(w, call), Launched(call));
            w' == Act(w, call) && FinalReply(f') == ReplyTo(w, call)
  {
    match call {
      case Create(_, _, _, _, _, _) =>
      case Use(_, _, _, _) => AloneUse(w, Launched(call));
      case Destroy(_, _, _) => AloneDestroy(w, w, Launched(call));
    }
  }

  /** The answer that a use's visits from the next one on find. */
  function FoundFrom(w: World, f: Flight): Option<Answer>
    requires f.call.Use?
  {
    var (eps, h) := (f.call.s.endpoints, f.call.Target());
    match FirstAnswer(w.vaults, eps, h, f.call.op, f.call.faults, f.visits)
    case None => None
    case Some(i) => Some(Ask(KeysAt(w.vaults, eps[i]), h, f.call.op, f.call.faults(i)).value)
  }

  lemma {:induction false} AloneUse(w: World, f: Flight)
    requires f.call.Use? && f.answer.None? && f.visits <= |f.call.s.endpoints|
    ensures Alone(w, f).0 == w && Alone(w, f).1.call == f.call
    ensures Alone(w, f).1.answer == if f.call.s.policyOk then FoundFrom(w, f) else None
    decreases |f.call.s.endpoints| - f.visits
  {
    if MoreVisits(f) {
      var g := VisitedFlight(w, f);
      assert VisitedWorld(w, f) == w && g.call == f.call && g.visits == f.visits + 1;
      if g.answer.None? {
        assert FoundFrom(w, g) == FoundFrom(w, f);
        AloneUse(w, g);
      } else {
        assert g.answer == FoundFrom(w, f);
        assert Alone(w, g) == (w, g);
      }
    }
  }

  lemma {:induction false} AloneDestroy(w0: World, w: World, f: Flight)
    requires f.call.Destroy? && f.visits <= |f.call.s.endpoints| && (!f.call.s.policyOk ==> f.visits == 0)
    requires w == w0.(vaults := AfterDeletes(w0.vaults, f.call.s.endpoints, f.call.Target(), f.call.faults, f.visits))
    requires f.done <==>
             DeletedBy(w0.vaults, f.call.s.endpoints, f.call.Target(), f.call.faults, f.visits)
    requires f.failed <==> FailedBy(f.call.faults, f.visits)
    ensures var (w', f') := Alone(w, f); w' == Act(w0, f.call) && FinalReply(f') == ReplyTo(w0, f.call)
    decreases |f.call.s.endpoints| - f.visits
  {
    if MoreVisits(f) {
      OneMoreVisit(w0.vaults, f.call.s.endpoints, f.call.Target(), f.call.faults, f.visits);
      AloneDestroy(w0, VisitedWorld(w, f), VisitedFlight(w, f));
    }
  }

  // ---- Any operation can be run ----

  /** The moves can be made one after the other. */
  predicate Goes(s: State, moves: seq<Move>)
    decreases |moves|
  {
    moves == [] || (Enabled(s, moves[0]) && Goes(Next(s, moves[0]), moves[1..]))
  }

  function EndState(s: State, moves: seq<Move>): State
    requires Goes(s, moves)
    decreases |moves|
  {
    if moves == [] then s else EndState(Next(s, moves[0]), moves[1..])
  }

  lemma {:induction false} GoesOn(s: State, moves: seq<Move>, more: seq<Move>)
    requires Goes(s, moves) && Goes(EndState(s, moves), more)
    ensures Goes(s, moves + more) && EndState(s, moves + more) == EndState(EndState(s, moves), more)
    decreases |moves|
  {
    if moves == [] {
      assert moves + more == more;
    } else {
      assert (moves + more)[1..] == moves[1..] + more;
      GoesOn(Next(s, moves[0]), moves[1..], more);
    }
  }

  lemma OneMove(s: State, move: Move)
    requires Enabled(s, move)
    ensures Goes(s, [move]) && EndState(s, [move]) == Next(s, move)
  {
    assert [move][1..] == [] && Goes(Next(s, move), []);
  }

  /** An unfinished operation can make all the visits that are left, in any state. */
  lemma {:induction false} VisitsLeft(s: State, id: nat) returns (moves: seq<Move>)
    requires id < |s.flights| && s.flights[id].reply.None?
    ensures Goes(s, moves)
    ensures var (w, f) := Alone(s.world, s.flights[id]);
            EndState(s, moves) == State(w, s.flights[id := f]) && f.reply.None? && !MoreVisits(f)
    decreases if MoreVisits(s.flights[id]) then 1 + |s.flights[id].call.s.endpoints| - s.flights[id].visits else 0
  {
    if MoreVisits(s.flights[id]) {
      var next := Next(s, Visit(id));
      OneMove(s, Visit(id));
      var more := VisitsLeft(next, id);
      moves := [Visit(id)] + more;
      GoesOn(s, [Visit(id)], more);
      var f := Alone(next.world, next.flights[id]).1;
      assert s.flights[id := next.flights[id]][id := f] == s.flights[id := f];
    } else {
      moves := [];
      assert s.flights[id := s.flights[id]] == s.flights;
    }
  }

  /**
  Nothing ever blocks: in every state an operation can be started and run to its end, without waiting for any other, and
  does and replies what it does and replies as one step.
  */
  lemma SoloRun(s: State, call: Step) returns (moves: seq<Move>, f: Flight)
    ensures Goes(s, moves) && EndState(s, moves) == State(Act(s.world, call), s.flights + [f])
    ensures f.call == call && f.reply == Some(ReplyTo(s.world, call))
  {
    var id, begun := |s.flights|, Next(s, Start(call));
    OneMove(s, Start(call));
    var visits := VisitsLeft(begun, id);
    AloneIsAct(s.world, call);
    AloneKeepsCall(begun.world, begun.flights[id]);
    var visited := EndState(begun, visits);
    OneMove(visited, Finish(id));
    GoesOn(begun, visits, [Finish(id)]);
    GoesOn(s, [Start(call)], visits + [Finish(id)]);
    moves := [Start(call)] + (visits + [Finish(id)]);
    f := visited.flights[id].(reply := Some(ReplyTo(s.world, call)));
    assert visited.flights == s.flights + [visited.flights[id]];
    assert EndState(s, moves).flights == s.flights + [f];
  }

  lemma {:induction false} AloneKeepsCall(w: World, f: Flight)
    ensures Alone(w, f).1.call == f.call
    decreases if MoreVisits(f) then 1 + |f.call.s.endpoints| - f.visits else 0
  {
    if MoreVisits(f) {
      AloneKeepsCall(VisitedWorld(w, f), VisitedFlight(w, f));
    }
  }
}
