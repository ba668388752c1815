/** The gateway's session with the constellation (internal/vault/session.go). */
module Session {
  import opened Bytes
  import opened Vaults
  import opened Wrappers

  /** The vaults, reached over the network: what they hold changes as calls reach them. */
  class Network {
    var vaults: Constellation

    constructor (vaults: Constellation)
      ensures this.vaults == vaults
    {
      this.vaults := vaults;
    }
  }

  /** What the platform grants for a new key. */
  datatype KeyGrant = KeyGrant(handle: Handle, endpoints: seq<Endpoint>, policyOk: bool)

  // ---- Using a key ----

  /** The i-th endpoint both dials and answers. */
  predicate Answers<T>(w: Constellation, eps: seq<Endpoint>, h: Handle, op: Key -> Result<T, Text>,
                       faults: nat -> Fault, i: nat) {
    i < |eps| && !faults(i).DialFails? && Ask(KeysAt(w, eps[i]), h, op, faults(i)).Ok?
  }

  /** The first endpoint, from the k-th on, that both dials and answers. */
  function FirstAnswer<T>(w: Constellation, eps: seq<Endpoint>, h: Handle, op: Key -> Result<T, Text>,
                          faults: nat -> Fault, k: nat := 0): (i: Option<nat>)
    ensures i.None? <==> forall j | k <= j < |eps| :: !Answers(w, eps, h, op, faults, j)
    ensures i.Some? ==> k <= i.value && Answers(w, eps, h, op, faults, i.value)
    ensures i.Some? ==> forall j | k <= j < i.value :: !Answers(w, eps, h, op, faults, j)
    decreases |eps| - k
  {
    if k >= |eps| then None
    else if Answers(w, eps, h, op, faults, k) then Some(k)
    else FirstAnswer(w, eps, h, op, faults, k + 1)
  }

  /** What a use of a key gives: the first answer. */
  function Found<T>(w: Constellation, eps: seq<Endpoint>, h: Handle, op: Key -> Result<T, Text>, faults: nat -> Fault)
    : Option<T>
  {
    match FirstAnswer(w, eps, h, op, faults)
    case None => None
    case Some(i) => Some(Ask(KeysAt(w, eps[i]), h, op, faults(i)).value)
  }

  /** What a use of a key through a session gives, if it succeeds. */
  function Used<T>(w: Constellation, s: VaultAccess, name: string, op: Key -> Result<T, Text>, faults: nat -> Fault)
    : Option<T>
  {
    if s.policyOk then Found(w, s.endpoints, s.HandleOf(name), op, faults) else None
  }

  // ---- Destroying a key ----

  /** The vaults after one visit that deletes a key. */
  function Visited(w: Constellation, ep: Endpoint, h: Handle, f: Fault): Constellation {
    if f.DialFails? || ep !in w then w else w[ep := Deleted(w[ep], h, f)]
  }

  /** The vaults after the first n visits. */
  function AfterDeletes(w: Constellation, eps: seq<Endpoint>, h: Handle, faults: nat -> Fault, n: nat): Constellation
    requires n <= |eps|
  {
    if n == 0 then w else Visited(AfterDeletes(w, eps, h, faults, n - 1), eps[n - 1], h, faults(n - 1))
  }

  /** One of the first n visits to the endpoint deletes the key. */
  predicate Hit(eps: seq<Endpoint>, faults: nat -> Fault, n: nat, ep: Endpoint)
    requires n <= |eps|
  {
    exists i | 0 <= i < n :: eps[i] == ep && TakesEffect(faults(i))
  }

  /** Every vault keeps all it held, except the key where a deleting visit reached it. */
  lemma {:induction false} DeletesOnlyThere(w: Constellation, eps: seq<Endpoint>, h: Handle, faults: nat -> Fault,
                                            n: nat)
    requires n <= |eps|
    ensures var after := AfterDeletes(w, eps, h, faults, n);
            && after.Keys == w.Keys
            && forall ep | ep in w :: after[ep] == if Hit(eps, faults, n, ep) then w[ep] - {h} else w[ep]
  {
    if n > 0 {
      var before := AfterDeletes(w, eps, h, faults, n - 1);
      DeletesOnlyThere(w, eps, h, faults, n - 1);
      forall ep | ep in w
        ensures Hit(eps, faults, n, ep) <==>
                Hit(eps, faults, n - 1, ep) || (eps[n - 1] == ep && TakesEffect(faults(n - 1)))
      {
      }
    }
  }

  /** The i-th visit finds the key and deletes it, and says so. */
  predicate Deletes(w: Constellation, eps: seq<Endpoint>, h: Handle, faults: nat -> Fault, i: nat)
    requires i < |eps|
  {
    faults(i).Works? && Holds(AfterDeletes(w, eps, h, faults, i), eps[i], h)
  }

  /** The i-th visit fails with anything but "not found". */
  predicate FailsHard(faults: nat -> Fault, i: nat) {
    faults(i).DialFails? || (faults(i).CallFails? && !SaysNotFound(faults(i).text))
  }

  /** That is: the dial fails, or the call does with a text in which "not found" stands nowhere. */
  lemma FailsHardExactly(faults: nat -> Fault, i: nat)
    ensures FailsHard(faults, i) <==>
            faults(i).DialFails? || (faults(i).CallFails? && !exists j: nat :: At(faults(i).text, "not found", j))
  {
    if faults(i).CallFails? {
      NotFoundExactly(faults(i).text);
    }
  }

  /** One of the first n visits deletes the key. */
  predicate DeletedBy(w: Constellation, eps: seq<Endpoint>, h: Handle, faults: nat -> Fault, n: nat)
    requires n <= |eps|
  {
    exists i | 0 <= i < n :: Deletes(w, eps, h, faults, i)
  }

  /** One of the first n visits fails hard. */
  predicate FailedBy(faults: nat -> Fault, n: nat) { exists i | 0 <= i < n :: FailsHard(faults, i) }

  /** When a destroy reports success. */
  predicate DestroyOk(w: Constellation, eps: seq<Endpoint>, h: Handle, faults: nat -> Fault) {
    DeletedBy(w, eps, h, faults, |eps|) || !FailedBy(faults, |eps|)
  }

  lemma OneMoreVisit(w: Constellation, eps: seq<Endpoint>, h: Handle, faults: nat -> Fault, n: nat)
    requires n < |eps|
    ensures DeletedBy(w, eps, h, faults, n + 1) <==> DeletedBy(w, eps, h, faults, n) || Deletes(w, eps, h, faults, n)
    ensures FailedBy(faults, n + 1) <==> FailedBy(faults, n) || FailsHard(faults, n)
  {
  }

  // ---- The session ----

  /** Everything a session needs; `policyOk` says that its vault measurement is a valid one. */
  datatype VaultAccess = VaultAccess(vaultId: string, endpoints: seq<Endpoint>, policyOk: bool) {

    function HandleOf(name: string): Handle { "vaults/" + vaultId + "/" + name }

    /** Tries each endpoint in turn until one answers. */
    method WithHolder<T>(net: Network, h: Handle, op: Key -> Result<T, Text>, faults: nat -> Fault)
        returns (r: Result<(T, Endpoint), Text>)
      ensures r.Ok? <==> policyOk && FirstAnswer(net.vaults, endpoints, h, op, faults).Some?
      ensures r.Ok? ==> var i := FirstAnswer(net.vaults, endpoints, h, op, faults).value;
                        r.value == (Ask(KeysAt(net.vaults, endpoints[i]), h, op, faults(i)).value, endpoints[i])
      ensures r.Ok? ==> Found(net.vaults, endpoints, h, op, faults) == Some(r.value.0)
    {
      if !policyOk {
        return Err("vault mrenclave must be 32 bytes of hex");
      }
      var lastErr: Option<Text> := None;
      for i := 0 to |endpoints|
        invariant FirstAnswer(net.vaults, endpoints, h, op, faults, i)
                  == FirstAnswer(net.vaults, endpoints, h, op, faults)
      {
        var f := faults(i);
        if f.DialFails? {
          lastErr := Some(f.text);
          continue;
        }
        var v := Ask(KeysAt(net.vaults, endpoints[i]), h, op, f);
        if v.Err? {
          if SaysNotFound(v.error) {
            continue;
          }
          lastErr := Some(v.error);
          continue;
        }
        return Ok((v.value, endpoints[i]));
      }
      r := Err("no vault answered for the key: " + if lastErr.Some? then lastErr.value else "<nil>");
    }

    /** Deletes the key wherever it can be reached. */
    method Destroy(net: Network, name: string, faults: nat -> Fault) returns (r: Result<(), Text>)
      modifies net
      ensures net.vaults == if !policyOk then old(net.vaults)
                            else AfterDeletes(old(net.vaults), endpoints, HandleOf(name), faults, |endpoints|)
      ensures r.Ok? <==> policyOk && DestroyOk(old(net.vaults), endpoints, HandleOf(name), faults)
    {
      if !policyOk {
        return Err("vault mrenclave must be 32 bytes of hex");
      }
      var h := HandleOf(name);
      ghost var w := net.vaults;
      var deleted := 0;
      var lastErr: Option<Text> := None;
      AbsentSaysNotFound();
      for i := 0 to |endpoints|
        invariant net.vaults == AfterDeletes(w, endpoints, h, faults, i)
        invariant deleted > 0 <==> DeletedBy(w, endpoints, h, faults, i)
        invariant deleted >= 0
        invariant lastErr.Some? <==> FailedBy(faults, i)
      {
        OneMoreVisit(w, endpoints, h, faults, i);
        var ep, f := endpoints[i], faults(i);
        if f.DialFails? {
          lastErr := Some(f.text);
          continue;
        }
        var keys := KeysAt(net.vaults, ep);
        var err := if f.CallFails? then Some(f.text) else if h in keys then None else Some(ABSENT);
        if ep in net.vaults {
          net.vaults := net.vaults[ep := Deleted(keys, h, f)];
        }
        if err.Some? && !SaysNotFound(err.value) {
          lastErr := err;
          continue;
        }
        if err.None? {
          deleted := deleted + 1;
        }
      }
      if deleted == 0 && lastErr.Some? {
        return Err("destroy: " + lastErr.value);
      }
      r := Ok(());
    }

    /** Creates fresh key material on the vault that the platform granted. */
    method Create(net: Network, hasGrantor: bool, material: Result<Key, Text>, certError: Option<Text>,
                  grant: Result<KeyGrant, Text>, fault: Fault, overwrites: bool) returns (r: Result<Handle, Text>)
      modifies net
      ensures var reaches := hasGrantor && material.Ok? && certError.None? && grant.Ok? && Usable(grant.value);
              && net.vaults == (if reaches then Placed(old(net.vaults), grant.value, material.value, fault, overwrites)
                                else old(net.vaults))
              && r.Ok? == (reaches && fault.Works?
                           && (overwrites || !Holds(old(net.vaults), grant.value.endpoints[0], grant.value.handle)))
      ensures r.Ok? ==> r.value == grant.value.handle
    {
      if !hasGrantor {
        return Err("no platform grantor configured for key creation");
      }
      if material.Err? {
        return Err(material.error);
      }
      if certError.Some? {
        return Err("client cert: " + certError.value);
      }
      if grant.Err? {
        return Err(grant.error);
      }
      var g := grant.value;
      if |g.endpoints| == 0 {
        return Err("the platform returned no vault endpoints");
      }
      if !g.policyOk {
        return Err("vault mrenclave must be 32 bytes of hex");
      }
      var ep := g.endpoints[0];
      if fault.DialFails? {
        return Err("dial: " + fault.text);
      }
      var keys := KeysAt(net.vaults, ep);
      net.vaults := net.vaults[ep := Created(keys, g.handle, material.value, fault, overwrites)];
      if fault.CallFails? {
        return Err("create key: " + fault.text);
      }
      if g.handle in keys && !overwrites {
        return Err("create key: already exists");
      }
      r := Ok(g.handle);
    }
  }

  /** A grant that names an endpoint and a valid vault measurement. */
  predicate Usable(g: KeyGrant) { g.endpoints != [] && g.policyOk }

  /** The constellation after a create call to the first granted endpoint. */
  function Placed(w: Constellation, g: KeyGrant, key: Key, fault: Fault, overwrites: bool): Constellation
    requires Usable(g)
  {
    if fault.DialFails? then w
    else w[g.endpoints[0] := Created(KeysAt(w, g.endpoints[0]), g.handle, key, fault, overwrites)]
  }
}
