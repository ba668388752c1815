/**
All sessions, over whole runs, as one store of keys: however dials and calls fail, the constellation behaves like a
single map from handle to key (internal/vault/session.go).
*/
module KeyStore {
  import opened Bytes
  import opened Session
  import opened Vaults
  import opened Wrappers

  // ---- Handles ----

  function HandleIn(vaultId: string, name: string): Handle { VaultAccess(vaultId, [], true).HandleOf(name) }

  /** A handle is the vault's path and the name. */
  lemma HandleShape(vaultId: string, name: string)
    ensures HandleIn(vaultId, name)[..7] == "vaults/"
    ensures HandleIn(vaultId, name)[7..] == vaultId + ['/'] + name
  {
  }

  predicate NoSlash(id: string) { '/' !in id }

  /**
  Two vault ids can give the same handle, for some pair of names, exactly when one id is the other followed by a slash
  and more.
  */
  lemma HandlesCollideExactly(a: string, b: string)
    requires a != b
    ensures (exists x, y :: HandleIn(a, x) == HandleIn(b, y)) <==> a + "/" <= b || b + "/" <= a
  {
    if x, y :| HandleIn(a, x) == HandleIn(b, y) {
      HandleCut(a, x, b, y);
    }
    if a + "/" <= b {
      var rest := b[|a| + 1..];
      assert b == a + "/" + rest;
      HandleJoin(a, rest, "");
    }
    if b + "/" <= a {
      var rest := a[|b| + 1..];
      assert a == b + "/" + rest;
      HandleJoin(b, rest, "");
    }
  }

  lemma HandleJoin(a: string, rest: string, y: string)
    ensures HandleIn(a, rest + "/" + y) == HandleIn(a + "/" + rest, y)
  {
    assert "vaults/" + a + "/" + (rest + "/" + y) == "vaults/" + (a + "/" + rest) + "/" + y;
  }

  lemma HandleCut(a: string, x: string, b: string, y: string)
    requires HandleIn(a, x) == HandleIn(b, y)
    ensures a == b ==> x == y
    ensures a != b ==> a + "/" <= b || b + "/" <= a
  {
    var l, r := HandleIn(a, x), HandleIn(b, y);
    assert l[7..] == a + "/" + x && r[7..] == b + "/" + y;
    var t := l[7..];
    assert a + "/" == t[..|a| + 1] && b + "/" == t[..|b| + 1];
    assert a == t[..|a|] && b == t[..|b|];
    if |a| == |b| {
      assert x == t[|a| + 1..] == y;
    } else if |a| < |b| {
      assert a + "/" == b[..|a| + 1];
    } else {
      assert b + "/" == a[..|b| + 1];
    }
  }

  /** Vault ids without slashes never share a handle, whatever the names. */
  lemma HandlesDistinct(a: string, x: string, b: string, y: string)
    requires NoSlash(a) && NoSlash(b) && HandleIn(a, x) == HandleIn(b, y)
    ensures a == b && x == y
  {
    HandleCut(a, x, b, y);
    assert (a + "/")[|a|] == '/' && (b + "/")[|b|] == '/';
  }

  // ---- One use, one destroy ----

  /**
  When a use succeeds, and with what: exactly when some visit gets through to the holder and the key gives an answer, in
  whatever order the holder is listed, and then with that answer.
  */
  lemma FoundExactly<T>(w: Constellation, eps: seq<Endpoint>, h: Handle, op: Key -> Result<T, Text>,
                        faults: nat -> Fault, holder: Endpoint)
    requires OneHolder(w, h) && Holds(w, holder, h)
    ensures var (found, answer) := (Found(w, eps, h, op, faults), op(KeysAt(w, holder)[h]));
            && (found.Some? <==> answer.Ok? && exists i | 0 <= i < |eps| :: eps[i] == holder && faults(i).Works?)
            && (found.Some? ==> found.value == answer.value)
  {
    var first := FirstAnswer(w, eps, h, op, faults);
    if first.Some? {
      assert Holds(w, eps[first.value], h);
    }
    forall i | 0 <= i < |eps| && eps[i] == holder && faults(i).Works? && op(KeysAt(w, holder)[h]).Ok?
      ensures Answers(w, eps, h, op, faults, i)
    {
    }
  }

  /** Where a use's answer comes from: a listed vault that holds a key which gives it. */
  lemma FoundAt<T>(w: Constellation, eps: seq<Endpoint>, h: Handle, op: Key -> Result<T, Text>, faults: nat -> Fault)
      returns (ep: Endpoint, key: Key)
    requires Found(w, eps, h, op, faults).Some?
    ensures ep in eps && h in KeysAt(w, ep) && key == KeysAt(w, ep)[h]
    ensures op(key) == Ok(Found(w, eps, h, op, faults).value)
  {
    var i := FirstAnswer(w, eps, h, op, faults).value;
    ep, key := eps[i], KeysAt(w, eps[i])[h];
  }

  /** With one holder, any two successful uses with the same operation give one value: order and faults are moot. */
  lemma SameForAnyOrder<T>(w: Constellation, eps: seq<Endpoint>, eps': seq<Endpoint>, h: Handle,
                           op: Key -> Result<T, Text>, faults: nat -> Fault, faults': nat -> Fault)
    requires OneHolder(w, h)
    requires Found(w, eps, h, op, faults).Some? && Found(w, eps', h, op, faults').Some?
    ensures Found(w, eps, h, op, faults) == Found(w, eps', h, op, faults')
  {
    var i, j := FirstAnswer(w, eps, h, op, faults).value, FirstAnswer(w, eps', h, op, faults').value;
    assert Holds(w, eps[i], h) && Holds(w, eps'[j], h);
  }

  /** Faults that depend on the endpoint alone. */
  function AtEndpoints(eps: seq<Endpoint>, fault: Endpoint -> Fault): nat -> Fault {
    (i: nat) => if i < |eps| then fault(eps[i]) else Works
  }

  /** When faults depend on the endpoint alone, reordering or repeating endpoints changes nothing at all. */
  lemma OrderIrrelevant<T>(w: Constellation, eps: seq<Endpoint>, eps': seq<Endpoint>, h: Handle,
                           op: Key -> Result<T, Text>, fault: Endpoint -> Fault)
    requires OneHolder(w, h) && forall ep :: ep in eps <==> ep in eps'
    ensures Found(w, eps, h, op, AtEndpoints(eps, fault)) == Found(w, eps', h, op, AtEndpoints(eps', fault))
  {
    AnswerMoves(w, eps, eps', h, op, fault);
    AnswerMoves(w, eps', eps, h, op, fault);
    if Found(w, eps, h, op, AtEndpoints(eps, fault)).Some? {
      SameForAnyOrder(w, eps, eps', h, op, AtEndpoints(eps, fault), AtEndpoints(eps', fault));
    }
  }

  lemma AnswerMoves<T>(w: Constellation, eps: seq<Endpoint>, eps': seq<Endpoint>, h: Handle,
                       op: Key -> Result<T, Text>, fault: Endpoint -> Fault)
    requires forall ep :: ep in eps ==> ep in eps'
    ensures Found(w, eps, h, op, AtEndpoints(eps, fault)).Some? ==>
              Found(w, eps', h, op, AtEndpoints(eps', fault)).Some?
  {
    if Found(w, eps, h, op, AtEndpoints(eps, fault)).Some? {
      var i := FirstAnswer(w, eps, h, op, AtEndpoints(eps, fault)).value;
      assert eps[i] in eps';
      var j :| 0 <= j < |eps'| && eps'[j] == eps[i];
      assert Answers(w, eps', h, op, AtEndpoints(eps', fault), j);
    }
  }

  /** A create whose vault does not overwrite leaves every key that is there, and no create touches another key. */
  lemma CreateKeepsOthers(w: Constellation, g: KeyGrant, key: Key, fault: Fault, overwrites: bool, ep: Endpoint,
                          h: Handle)
    requires Usable(g) && Holds(w, ep, h) && (overwrites ==> ep != g.endpoints[0] || h != g.handle)
    ensures Holds(Placed(w, g, key, fault, overwrites), ep, h)
    ensures KeysAt(Placed(w, g, key, fault, overwrites), ep)[h] == KeysAt(w, ep)[h]
  {
  }

  // ---- What a destroy that reports success leaves behind ----

  lemma HoldsAfter(w: Constellation, eps: seq<Endpoint>, h: Handle, faults: nat -> Fault, n: nat, ep: Endpoint)
    requires n <= |eps|
    ensures Holds(AfterDeletes(w, eps, h, faults, n), ep, h) <==> Holds(w, ep, h) && !Hit(eps, faults, n, ep)
  {
    DeletesOnlyThere(w, eps, h, faults, n);
  }

  /** A visit that finds and deletes the key is to a vault that held it from the start, and leaves it without. */
  lemma DeletingVisit(w: Constellation, eps: seq<Endpoint>, h: Handle, faults: nat -> Fault) returns (i: nat)
    requires DeletedBy(w, eps, h, faults, |eps|)
    ensures i < |eps| && Holds(w, eps[i], h) && Hit(eps, faults, |eps|, eps[i])
    ensures !Holds(AfterDeletes(w, eps, h, faults, |eps|), eps[i], h)
  {
    i :| i < |eps| && Deletes(w, eps, h, faults, i);
    HoldsAfter(w, eps, h, faults, i, eps[i]);
    assert Hit(eps, faults, |eps|, eps[i]);
    HoldsAfter(w, eps, h, faults, |eps|, eps[i]);
  }

  /**
  With one holder, wherever it is, and for every pattern of faults: a destroy that reports success has left the key
  exactly when no visit took effect on the holder, because the list lacks it or every visit to it failed, and every
  visit that failed was told "not found".
  */
  lemma DestroyLeavesExactly(w: Constellation, eps: seq<Endpoint>, h: Handle, faults: nat -> Fault, holder: Endpoint)
    requires OneHolder(w, h) && Holds(w, holder, h)
    ensures DestroyOk(w, eps, h, faults) && Holds(AfterDeletes(w, eps, h, faults, |eps|), holder, h) <==>
            !FailedBy(faults, |eps|) && !Hit(eps, faults, |eps|, holder)
  {
    HoldsAfter(w, eps, h, faults, |eps|, holder);
    if DeletedBy(w, eps, h, faults, |eps|) {
      var i := DeletingVisit(w, eps, h, faults);
      assert eps[i] == holder;
    }
  }

  /** Such an input with no fault at all: the one holder is a vault that the list does not name. */
  lemma UnlistedHolderSurvives(holder: Endpoint, eps: seq<Endpoint>, h: Handle, key: Key)
    requires holder !in eps
    ensures var w: Constellation := map[holder := map[h := key]];
            var faults: nat -> Fault := _ => Works;
            && OneHolder(w, h) && Truthful(w, eps, h, faults) && DestroyOk(w, eps, h, faults)
            && Holds(AfterDeletes(w, eps, h, faults, |eps|), holder, h)
  {
    var w: Constellation := map[holder := map[h := key]];
    var faults: nat -> Fault := _ => Works;
    assert Holds(w, holder, h);
    assert !Hit(eps, faults, |eps|, holder);
    DestroyLeavesExactly(w, eps, h, faults, holder);
  }

  /** No endpoint of the list holds the key. */
  predicate GoneFrom(w: Constellation, eps: seq<Endpoint>, h: Handle) {
    forall ep | ep in eps :: !Holds(w, ep, h)
  }

  /** A visit that fails says "not found" only of a vault that does not hold the key. */
  predicate Truthful(w: Constellation, eps: seq<Endpoint>, h: Handle, faults: nat -> Fault) {
    forall i | 0 <= i < |eps| && faults(i).CallFails? && SaysNotFound(faults(i).text) ::
      !Holds(AfterDeletes(w, eps, h, faults, i), eps[i], h)
  }

  /** At most one endpoint of the list holds the key. */
  predicate OneListedHolder(w: Constellation, eps: seq<Endpoint>, h: Handle) {
    forall ep, ep' | ep in eps && ep' in eps && Holds(w, ep, h) && Holds(w, ep', h) :: ep == ep'
  }

  /**
  When "not found" is only said of absent keys, and the list names at most one holder, a destroy that reports success
  has removed the key from every endpoint of the list.
  */
  lemma DestroyOkIsGone(w: Constellation, eps: seq<Endpoint>, h: Handle, faults: nat -> Fault)
    requires OneListedHolder(w, eps, h) && Truthful(w, eps, h, faults)
    requires DestroyOk(w, eps, h, faults)
    ensures GoneFrom(AfterDeletes(w, eps, h, faults, |eps|), eps, h)
  {
    forall ep | ep in eps
      ensures !Holds(AfterDeletes(w, eps, h, faults, |eps|), ep, h)
    {
      HoldsAfter(w, eps, h, faults, |eps|, ep);
      if DeletedBy(w, eps, h, faults, |eps|) {
        var i := DeletingVisit(w, eps, h, faults);
      } else {
        var i :| 0 <= i < |eps| && eps[i] == ep;
        HoldsAfter(w, eps, h, faults, i, ep);
        assert !FailsHard(faults, i) && !Deletes(w, eps, h, faults, i);
      }
    }
  }

  /**
  When success of a destroy can be relied on, whatever the constellation: every truthful pattern of faults under which
  it reports success removes the key from the whole list, if and only if at most one endpoint of the list holds it.
  */
  lemma DestroyReliableExactly(w: Constellation, eps: seq<Endpoint>, h: Handle)
    ensures (forall faults: nat -> Fault :: Truthful(w, eps, h, faults) && DestroyOk(w, eps, h, faults) ==>
               GoneFrom(AfterDeletes(w, eps, h, faults, |eps|), eps, h))
            <==> OneListedHolder(w, eps, h)
  {
    if OneListedHolder(w, eps, h) {
      forall faults: nat -> Fault | Truthful(w, eps, h, faults) && DestroyOk(w, eps, h, faults)
        ensures GoneFrom(AfterDeletes(w, eps, h, faults, |eps|), eps, h)
      {
        DestroyOkIsGone(w, eps, h, faults);
      }
    } else {
      var a, b :| a in eps && b in eps && Holds(w, a, h) && Holds(w, b, h) && a != b;
      var faults := OnlyReaches(w, eps, h, a, b);
    }
  }

  /** No vault at all holds the key. */
  ghost predicate Gone(w: Constellation, h: Handle) { forall ep :: !Holds(w, ep, h) }

  /** The list names every vault that holds the key, and they are one at most. */
  ghost predicate ListsOnlyHolder(w: Constellation, eps: seq<Endpoint>, h: Handle) {
    OneHolder(w, h) && forall ep | Holds(w, ep, h) :: ep in eps
  }

  /**
  The same for the constellation as a whole: success removes the key from every vault there is if and only if the list
  names all holders, and they are one at most.
  */
  lemma DestroyRemovesExactly(w: Constellation, eps: seq<Endpoint>, h: Handle)
    ensures (forall faults: nat -> Fault :: Truthful(w, eps, h, faults) && DestroyOk(w, eps, h, faults) ==>
               Gone(AfterDeletes(w, eps, h, faults, |eps|), h))
            <==> ListsOnlyHolder(w, eps, h)
  {
    if ListsOnlyHolder(w, eps, h) {
      forall faults: nat -> Fault, ep | Truthful(w, eps, h, faults) && DestroyOk(w, eps, h, faults)
        ensures !Holds(AfterDeletes(w, eps, h, faults, |eps|), ep, h)
      {
        DestroyOkIsGone(w, eps, h, faults);
        HoldsAfter(w, eps, h, faults, |eps|, ep);
      }
    } else if ep :| Holds(w, ep, h) && ep !in eps {
      var faults := NoFault(w, eps, h);
      HoldsAfter(w, eps, h, faults, |eps|, ep);
    } else {
      var a, b :| Holds(w, a, h) && Holds(w, b, h) && a != b;
      var faults := OnlyReaches(w, eps, h, a, b);
    }
  }

  lemma NoFault(w: Constellation, eps: seq<Endpoint>, h: Handle) returns (faults: nat -> Fault)
    ensures Truthful(w, eps, h, faults) && DestroyOk(w, eps, h, faults)
  {
    faults := _ => Works;
  }

  /** With two holders in the list: the one is reached and deletes its copy, everything else is down. */
  lemma OnlyReaches(w: Constellation, eps: seq<Endpoint>, h: Handle, a: Endpoint, b: Endpoint)
      returns (faults: nat -> Fault)
    requires a in eps && b in eps && Holds(w, a, h) && Holds(w, b, h) && a != b
    ensures Truthful(w, eps, h, faults) && DestroyOk(w, eps, h, faults)
    ensures !GoneFrom(AfterDeletes(w, eps, h, faults, |eps|), eps, h)
  {
    faults := (i: nat) => if i < |eps| && eps[i] == a then Works else DialFails("down");
    var i := FirstAt(eps, a);
    HoldsAfter(w, eps, h, faults, i, a);
    assert Deletes(w, eps, h, faults, i);
    HoldsAfter(w, eps, h, faults, |eps|, b);
  }

  lemma {:induction false} FirstAt(eps: seq<Endpoint>, ep: Endpoint) returns (i: nat)
    requires ep in eps
    ensures i < |eps| && eps[i] == ep && ep !in eps[..i]
  {
    if eps[0] == ep {
      i := 0;
    } else {
      var j := FirstAt(eps[1..], ep);
      i := j + 1;
      assert eps[..i] == [eps[0]] + eps[1..][..j];
    }
  }
}
