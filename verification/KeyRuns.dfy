/**
Runs of creates, uses and destroys by any number of sessions, under arbitrary faults: at most one vault ever holds a
key, and the constellation is indistinguishable from one map from handle to key.
*/
module KeyRuns {
  import opened Bytes
  import opened KeyStore
  import opened Session
  import opened Vaults
  import opened Wrappers

  /** What a vault answers to a use of a key. */
  datatype Answer =
    | Sealed(ciphertext: seq<byte>, iv: seq<byte>)
    | Plain(plaintext: seq<byte>)
    | Signature(sig: seq<byte>)
    | Info(kind: KeyKind)

  type Op = Key -> Result<Answer, Text>

  /** The vaults, and the endpoint that the platform named first for each handle it granted. */
  datatype World = World(vaults: Constellation, granted: map<Handle, Endpoint>)

  const EMPTY: World := World(map[], map[])

  datatype Step =
    | Create(s: VaultAccess, name: string, key: Key, grant: KeyGrant, fault: Fault, overwrites: bool)
    | Use(s: VaultAccess, name: string, op: Op, faults: nat -> Fault)
    | Destroy(s: VaultAccess, name: string, faults: nat -> Fault)
  {
    function Target(): Handle { s.HandleOf(name) }
  }

  datatype Reply = Done | Answered(a: Answer) | Refused

  /**
  What is assumed of a step: the platform grants the handle of the name it was asked for, and never grants a handle
  twice on different vaults.
  */
  predicate Permitted(w: World, step: Step) {
    step.Create? && Usable(step.grant) ==>
      && step.grant.handle == step.Target()
      && (step.Target() in w.granted ==> w.granted[step.Target()] == step.grant.endpoints[0])
  }

  /** A create that is granted nothing usable touches no vault. */
  function Act(w: World, step: Step): World {
    match step
    case Create(_, _, key, grant, fault, overwrites) =>
      if !Usable(grant) then w
      else World(Placed(w.vaults, grant, key, fault, overwrites), w.granted[grant.handle := grant.endpoints[0]])
    case Use(_, _, _, _) => w
    case Destroy(s, name, faults) =>
      if !s.policyOk then w
      else w.(vaults := AfterDeletes(w.vaults, s.endpoints, s.HandleOf(name), faults, |s.endpoints|))
  }

  function ReplyTo(w: World, step: Step): Reply {
    match step
    case Create(_, _, _, grant, fault, overwrites) =>
      if Usable(grant) && fault.Works? && (overwrites || !Holds(w.vaults, grant.endpoints[0], grant.handle)) then Done
      else Refused
    case Use(s, name, op, faults) =>
      var used := Used(w.vaults, s, name, op, faults);
      if used.Some? then Answered(used.value) else Refused
    case Destroy(s, name, faults) =>
      if s.policyOk && DestroyOk(w.vaults, s.endpoints, s.HandleOf(name), faults) then Done else Refused
  }

  /** A step is what the session's own methods do. */
  method Perform(net: Network, step: Step, ghost granted: map<Handle, Endpoint>) returns (reply: Reply)
    modifies net
    ensures net.vaults == Act(World(old(net.vaults), granted), step).vaults
    ensures reply == ReplyTo(World(old(net.vaults), granted), step)
  {
    match step {
      case Create(s, _, key, grant, fault, overwrites) =>
        var r := s.Create(net, true, Ok(key), None, Ok(grant), fault, overwrites);
        reply := if r.Ok? then Done else Refused;
      case Use(s, name, op, faults) =>
        var r := s.WithHolder(net, s.HandleOf(name), op, faults);
        reply := if r.Ok? then Answered(r.value.0) else Refused;
      case Destroy(s, name, faults) =>
        var r := s.Destroy(net, name, faults);
        reply := if r.Ok? then Done else Refused;
    }
  }

  // ---- The invariant and the abstract map ----

  /** A vault holds a key only where the platform granted it. */
  ghost predicate Inv(w: World) {
    forall ep, h :: Holds(w.vaults, ep, h) ==> h in w.granted && w.granted[h] == ep
  }

  /** The one key store that all the vaults make up. */
  function Store(w: World): Keys {
    map h | h in w.granted && Holds(w.vaults, w.granted[h], h) :: KeysAt(w.vaults, w.granted[h])[h]
  }

  /**
  A destroy whose success can be relied on: some visit deleted the key, or there was no key, or the session lists the
  vault that the key was granted on and no vault said "not found" of a key it held.
  */
  predicate Trusted(w: World, step: Step)
    requires step.Destroy?
  {
    var (eps, h) := (step.s.endpoints, step.Target());
    || DeletedBy(w.vaults, eps, h, step.faults, |eps|)
    || (h in Store(w) ==> w.granted[h] in eps && Truthful(w.vaults, eps, h, step.faults))
  }

  /** What a reply tells: the success of a destroy that cannot be relied on tells no more than a refusal. */
  function Told(w: World, step: Step): Reply {
    if step.Destroy? && !Trusted(w, step) then Refused else ReplyTo(w, step)
  }

  /**
  What one map from handle to key would do: a step that reports success has happened, one that reports failure has
  happened or not, and a use that answers has used the key in the map.
  */
  predicate StoreStep(m: Keys, step: Step, reply: Reply, m': Keys) {
    var h := step.Target();
    match step
    case Create(_, _, key, _, _, _) =>
      if reply.Done? then m' == m[h := key] else m' == m || m' == m[h := key]
    case Use(_, _, op, _) =>
      m' == m && (reply.Answered? ==> h in m && op(m[h]) == Ok(reply.a))
    case Destroy(_, _, _) =>
      if reply.Done? then m' == m - {h} else m' == m || m' == m - {h}
  }

  lemma InvOneHolder(w: World, h: Handle)
    requires Inv(w)
    ensures OneHolder(w.vaults, h)
    ensures h !in Store(w) ==> forall ep :: !Holds(w.vaults, ep, h)
  {
    if h !in Store(w) {
      forall ep
        ensures !Holds(w.vaults, ep, h)
      {
      }
    }
  }

  lemma CreateRefines(w: World, step: Step)
    requires Inv(w) && step.Create? && Permitted(w, step)
    ensures Inv(Act(w, step))
    ensures StoreStep(Store(w), step, ReplyTo(w, step), Store(Act(w, step)))
    ensures !TakesEffect(step.fault) ==> Store(Act(w, step)) == Store(w)
  {
    if !Usable(step.grant) {
      return;
    }
    var h, ep := step.grant.handle, step.grant.endpoints[0];
    var keys := KeysAt(w.vaults, ep);
    var put := !step.fault.DialFails? && TakesEffect(step.fault) && (h !in keys || step.overwrites);
    var w' := Act(w, step);
    forall e
      ensures KeysAt(w'.vaults, e) == if put && e == ep then keys[h := step.key] else KeysAt(w.vaults, e)
    {
    }
    PutInStore(w, w', put, ep, h, step.key);
  }

  /** Keys change in one place only: the granted handle on the granted vault. */
  ghost predicate PutOnly(w: World, w': World, put: bool, ep: Endpoint, h: Handle, key: Key) {
    && w'.granted == w.granted[h := ep]
    && forall e ::
         KeysAt(w'.vaults, e) == if put && e == ep then KeysAt(w.vaults, ep)[h := key] else KeysAt(w.vaults, e)
  }

  lemma PutInStore(w: World, w': World, put: bool, ep: Endpoint, h: Handle, key: Key)
    requires Inv(w) && (h in w.granted ==> w.granted[h] == ep)
    requires PutOnly(w, w', put, ep, h, key)
    ensures Inv(w')
    ensures Store(w') == if put then Store(w)[h := key] else Store(w)
  {
    PutKeepsInv(w, w', put, ep, h, key);
    var m := if put then Store(w)[h := key] else Store(w);
    forall x
      ensures x in Store(w') <==> x in m
      ensures x in m ==> Store(w')[x] == m[x]
    {
      PutAt(w, w', put, ep, h, key, x);
    }
  }

  lemma PutKeepsInv(w: World, w': World, put: bool, ep: Endpoint, h: Handle, key: Key)
    requires Inv(w) && (h in w.granted ==> w.granted[h] == ep)
    requires PutOnly(w, w', put, ep, h, key)
    ensures Inv(w')
  {
    forall e, x | Holds(w'.vaults, e, x)
      ensures x in w'.granted && w'.granted[x] == e
    {
      assert Holds(w.vaults, e, x) || (put && e == ep && x == h);
    }
  }

  /** What the map holds under one handle. */
  lemma PutAt(w: World, w': World, put: bool, ep: Endpoint, h: Handle, key: Key, x: Handle)
    requires Inv(w) && (h in w.granted ==> w.granted[h] == ep)
    requires PutOnly(w, w', put, ep, h, key)
    ensures var m := if put then Store(w)[h := key] else Store(w);
            (x in Store(w') <==> x in m) && (x in m ==> Store(w')[x] == m[x])
  {
    if x == h {
      assert w'.granted[x] == ep;
      assert h !in w.granted ==> !Holds(w.vaults, ep, h);
    } else {
      assert x in w'.granted <==> x in w.granted;
    }
  }

  lemma DestroyRefines(w: World, step: Step)
    requires Inv(w) && step.Destroy?
    ensures Inv(Act(w, step))
    ensures StoreStep(Store(w), step, Told(w, step), Store(Act(w, step)))
  {
    if step.s.policyOk {
      var w', h, eps := Act(w, step), step.Target(), step.s.endpoints;
      DeletesOnlyThere(w.vaults, eps, h, step.faults, |eps|);
      LessInStore(w, w', h);
      if Told(w, step).Done? {
        TrustedIsGone(w, step);
      }
    }
  }

  lemma TrustedIsGone(w: World, step: Step)
    requires Inv(w) && step.Destroy? && Trusted(w, step) && ReplyTo(w, step).Done?
    ensures step.Target() !in Store(Act(w, step))
  {
    var h, eps := step.Target(), step.s.endpoints;
    InvOneHolder(w, h);
    if h in w.granted {
      HoldsAfter(w.vaults, eps, h, step.faults, |eps|, w.granted[h]);
      if DeletedBy(w.vaults, eps, h, step.faults, |eps|) {
        var i := DeletingVisit(w.vaults, eps, h, step.faults);
      } else if h in Store(w) {
        DestroyOkIsGone(w.vaults, eps, h, step.faults);
      }
    }
  }

  /** Nothing changes anywhere but that some vaults may have lost the one key. */
  lemma LessInStore(w: World, w': World, h: Handle)
    requires Inv(w) && w'.granted == w.granted
    requires forall e ::
               KeysAt(w'.vaults, e) == KeysAt(w.vaults, e) || KeysAt(w'.vaults, e) == KeysAt(w.vaults, e) - {h}
    ensures Inv(w')
    ensures Store(w') == if h in Store(w') then Store(w) else Store(w) - {h}
  {
    forall e, x
      ensures Holds(w'.vaults, e, x) ==> Holds(w.vaults, e, x)
      ensures x != h ==> (Holds(w'.vaults, e, x) <==> Holds(w.vaults, e, x))
    {
    }
  }

  lemma UseRefines(w: World, step: Step)
    requires Inv(w) && step.Use?
    ensures StoreStep(Store(w), step, ReplyTo(w, step), Store(w))
  {
    if ReplyTo(w, step).Answered? {
      var h, eps := step.Target(), step.s.endpoints;
      var i := FirstAnswer(w.vaults, eps, h, step.op, step.faults).value;
      assert Holds(w.vaults, eps[i], h);
    }
  }

  /** Every step is one of the one map, and keeps each key on the vault it was granted on. */
  lemma StepRefines(w: World, step: Step)
    requires Inv(w) && Permitted(w, step)
    ensures Inv(Act(w, step))
    ensures StoreStep(Store(w), step, Told(w, step), Store(Act(w, step)))
  {
    match step {
      case Create(_, _, _, _, _, _) => CreateRefines(w, step);
      case Use(_, _, _, _) => UseRefines(w, step);
      case Destroy(_, _, _) => DestroyRefines(w, step);
    }
  }

  // ---- Whole runs ----

  predicate Run(w: World, steps: seq<Step>)
    decreases |steps|
  {
    steps == [] || (Permitted(w, steps[0]) && Run(Act(w, steps[0]), steps[1..]))
  }

  function After(w: World, steps: seq<Step>): World
    requires Run(w, steps)
    decreases |steps|
  {
    if steps == [] then w else After(Act(w, steps[0]), steps[1..])
  }

  function RepliesTo(w: World, steps: seq<Step>): (r: seq<Reply>)
    requires Run(w, steps)
    ensures |r| == |steps|
    decreases |steps|
  {
    if steps == [] then [] else [ReplyTo(w, steps[0])] + RepliesTo(Act(w, steps[0]), steps[1..])
  }

  function Tolds(w: World, steps: seq<Step>): (r: seq<Reply>)
    requires Run(w, steps)
    ensures |r| == |steps|
    decreases |steps|
  {
    if steps == [] then [] else [Told(w, steps[0])] + Tolds(Act(w, steps[0]), steps[1..])
  }

  /** Every destroy that reports success can be relied on. */
  predicate AllTrusted(w: World, steps: seq<Step>)
    requires Run(w, steps)
    decreases |steps|
  {
    steps != [] ==>
      && (steps[0].Destroy? && ReplyTo(w, steps[0]).Done? ==> Trusted(w, steps[0]))
      && AllTrusted(Act(w, steps[0]), steps[1..])
  }

  /** One map from handle to key could have given these replies, ending as `m'`. */
  ghost predicate StoreRun(m: Keys, steps: seq<Step>, replies: seq<Reply>, m': Keys)
    requires |replies| == |steps|
    decreases |steps|
  {
    if steps == [] then m == m'
    else exists next :: StoreStep(m, steps[0], replies[0], next) && StoreRun(next, steps[1..], replies[1..], m')
  }

  /** Under arbitrary faults and lost answers, and whatever vaults say, at no point does a second vault hold a key. */
  lemma {:induction false} RunOneHolder(w: World, steps: seq<Step>, h: Handle)
    requires Inv(w) && Run(w, steps)
    ensures Inv(After(w, steps)) && OneHolder(After(w, steps).vaults, h)
    decreases |steps|
  {
    if steps == [] {
      InvOneHolder(w, h);
    } else {
      StepRefines(w, steps[0]);
      RunOneHolder(Act(w, steps[0]), steps[1..], h);
    }
  }

  /**
  Every run of creates, uses and destroys, under arbitrary faults and lost answers, is a run of one map from handle to
  key, by what the replies tell.
  */
  lemma {:induction false} RunRefinesStore(w: World, steps: seq<Step>)
    requires Inv(w) && Run(w, steps)
    ensures StoreRun(Store(w), steps, Tolds(w, steps), Store(After(w, steps)))
    ensures AllTrusted(w, steps) ==> StoreRun(Store(w), steps, RepliesTo(w, steps), Store(After(w, steps)))
    decreases |steps|
  {
    if steps != [] {
      var next := Act(w, steps[0]);
      StepRefines(w, steps[0]);
      RunRefinesStore(next, steps[1..]);
      StoreRunCons(Store(w), steps, Told(w, steps[0]), Store(next), Tolds(next, steps[1..]), Store(After(w, steps)));
      if AllTrusted(w, steps) {
        StoreRunCons(Store(w), steps, ReplyTo(w, steps[0]), Store(next), RepliesTo(next, steps[1..]),
                     Store(After(w, steps)));
      }
    }
  }

  lemma StoreRunCons(m: Keys, steps: seq<Step>, reply: Reply, next: Keys, replies: seq<Reply>, m': Keys)
    requires steps != [] && |replies| == |steps| - 1
    requires StoreStep(m, steps[0], reply, next) && StoreRun(next, steps[1..], replies, m')
    ensures StoreRun(m, steps, [reply] + replies, m')
  {
    assert ([reply] + replies)[1..] == replies;
  }

  /** The same for the runs that start before any key exists. */
  lemma RunsFromNothing(steps: seq<Step>, h: Handle)
    requires Run(EMPTY, steps)
    ensures OneHolder(After(EMPTY, steps).vaults, h)
    ensures StoreRun(map[], steps, Tolds(EMPTY, steps), Store(After(EMPTY, steps)))
    ensures AllTrusted(EMPTY, steps) ==> StoreRun(map[], steps, RepliesTo(EMPTY, steps), Store(After(EMPTY, steps)))
  {
    assert Store(EMPTY) == map[];
    RunOneHolder(EMPTY, steps, h);
    RunRefinesStore(EMPTY, steps);
  }

  /** A platform that grants one handle on two vaults puts the key on both when the first create's answer is lost. */
  lemma TwoGrantsTwoHolders(s: VaultAccess, name: string, key: Key)
    ensures var h := s.HandleOf(name);
            var w1 := Act(EMPTY, Create(s, name, key, KeyGrant(h, ["a"], true), CallFails("timeout", true), false));
            var w2 := Act(w1, Create(s, name, key, KeyGrant(h, ["b"], true), Works, false));
            !OneHolder(w2.vaults, h)
  {
    var h := s.HandleOf(name);
    var w1 := Act(EMPTY, Create(s, name, key, KeyGrant(h, ["a"], true), CallFails("timeout", true), false));
    var w2 := Act(w1, Create(s, name, key, KeyGrant(h, ["b"], true), Works, false));
    assert Holds(w2.vaults, "a", h) && Holds(w2.vaults, "b", h);
  }

  // ---- What no run can do ----

  predicate NoCreateOf(steps: seq<Step>, h: Handle) {
    forall i | 0 <= i < |steps| && steps[i].Create? :: steps[i].Target() != h
  }

  /** Without a create, a key never changes: it is the key it was, or gone, and once gone it stays gone. */
  lemma {:induction false} KeyOnlyDisappears(m: Keys, steps: seq<Step>, replies: seq<Reply>, m': Keys, h: Handle)
    requires |replies| == |steps| && StoreRun(m, steps, replies, m') && NoCreateOf(steps, h)
    ensures h in m' ==> h in m && m'[h] == m[h]
    ensures forall i | 0 <= i < |steps| && steps[i].Use? && steps[i].Target() == h && replies[i].Answered? ::
              h in m && steps[i].op(m[h]) == Ok(replies[i].a)
    decreases |steps|
  {
    if steps != [] {
      var next :| StoreStep(m, steps[0], replies[0], next) && StoreRun(next, steps[1..], replies[1..], m');
      KeyOnlyDisappears(next, steps[1..], replies[1..], m', h);
      forall i | 0 <= i < |steps| && steps[i].Use? && steps[i].Target() == h && replies[i].Answered?
        ensures h in m && steps[i].op(m[h]) == Ok(replies[i].a)
      {
        if i > 0 {
          assert steps[i] == steps[1..][i - 1] && replies[i] == replies[1..][i - 1];
        }
      }
    }
  }

  /**
  After a destroy that reported success, every use of the key is refused, by every session and in every continuation
  without a new create. The destroy has deleted the key at some visit, or found none, or came from a session that lists
  the key's vault and was not lied to; of other destroys nothing is assumed.
  */
  lemma DestroyedStaysGone(w: World, destroy: Step, steps: seq<Step>, i: nat)
    requires Inv(w) && destroy.Destroy? && ReplyTo(w, destroy).Done?
    requires var (eps, h) := (destroy.s.endpoints, destroy.Target());
             || DeletedBy(w.vaults, eps, h, destroy.faults, |eps|) || h !in Store(w)
             || (w.granted[h] in eps && Truthful(w.vaults, eps, h, destroy.faults))
    requires Run(Act(w, destroy), steps) && NoCreateOf(steps, destroy.Target())
    requires i < |steps| && steps[i].Use? && steps[i].Target() == destroy.Target()
    ensures RepliesTo(Act(w, destroy), steps)[i] == Refused
  {
    var w' := Act(w, destroy);
    StepRefines(w, destroy);
    RunRefinesStore(w', steps);
    KeyOnlyDisappears(Store(w'), steps, Tolds(w', steps), Store(After(w', steps)), destroy.Target());
    UseReplies(w', steps, i);
  }

  lemma {:induction false} UseReplies(w: World, steps: seq<Step>, i: nat)
    requires Run(w, steps) && i < |steps| && steps[i].Use?
    ensures Tolds(w, steps)[i] == RepliesTo(w, steps)[i] && !RepliesTo(w, steps)[i].Done?
    decreases |steps|
  {
    if i > 0 {
      UseReplies(Act(w, steps[0]), steps[1..], i - 1);
    }
  }

  /** What a successful create put there is what every later use is answered by, until the next create. */
  lemma {:induction false} CreatedIsUsed(m: Keys, steps: seq<Step>, replies: seq<Reply>, m': Keys, i: nat, j: nat)
    requires |replies| == |steps| && StoreRun(m, steps, replies, m')
    requires i < j < |steps| && steps[i].Create? && replies[i].Done? && NoCreateOf(steps[i + 1..], steps[i].Target())
    requires steps[j].Use? && steps[j].Target() == steps[i].Target() && replies[j].Answered?
    ensures steps[j].op(steps[i].key) == Ok(replies[j].a)
    decreases |steps|
  {
    var next :| StoreStep(m, steps[0], replies[0], next) && StoreRun(next, steps[1..], replies[1..], m');
    assert steps[j] == steps[1..][j - 1] && replies[j] == replies[1..][j - 1];
    if i == 0 {
      KeyOnlyDisappears(next, steps[1..], replies[1..], m', steps[0].Target());
    } else {
      assert steps[1..][i - 1] == steps[i] && replies[1..][i - 1] == replies[i];
      assert steps[1..][i..] == steps[i + 1..];
      CreatedIsUsed(next, steps[1..], replies[1..], m', i - 1, j - 1);
    }
  }

  /** Sessions for other vaults, by ids without slashes, leave a vault's keys alone. */
  lemma {:induction false} OtherVaultsLeaveKeys(m: Keys, steps: seq<Step>, replies: seq<Reply>, m': Keys,
                                                id: string, name: string)
    requires |replies| == |steps| && StoreRun(m, steps, replies, m')
    requires NoSlash(id)
    requires forall i | 0 <= i < |steps| :: NoSlash(steps[i].s.vaultId) && steps[i].s.vaultId != id
    ensures HandleIn(id, name) in m' <==> HandleIn(id, name) in m
    ensures HandleIn(id, name) in m' ==> m'[HandleIn(id, name)] == m[HandleIn(id, name)]
    decreases |steps|
  {
    if steps != [] {
      var next :| StoreStep(m, steps[0], replies[0], next) && StoreRun(next, steps[1..], replies[1..], m');
      if steps[0].Target() == HandleIn(id, name) {
        HandlesDistinct(steps[0].s.vaultId, steps[0].name, id, name);
      }
      OtherVaultsLeaveKeys(next, steps[1..], replies[1..], m', id, name);
    }
  }
}
