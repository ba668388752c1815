/**
The KMIP operation handlers over a session (internal/kmip/server.go), with the vaults' authenticated encryption taken
as ideal.
*/
module KmipHandlers {
  import opened Bytes
  import opened Interleaved
  import opened KeyRuns
  import opened KeyStore
  import opened Session
  import opened Vaults
  import opened Wrappers

  datatype Reason = InvalidField | GeneralFailure | ItemNotFound

  /** Authenticated encryption under a key and an IV; `open` may refuse. */
  datatype Aead = Aead(
    seal: (Key, seq<byte>, seq<byte>) -> seq<byte>,
    open: (Key, seq<byte>, seq<byte>) -> Option<seq<byte>>)
  {
    ghost predicate Ideal() {
      forall key, iv, plaintext :: open(key, iv, seal(key, iv, plaintext)) == Some(plaintext)
    }
  }

  /** The vault's wrap: the vault chooses the IV. */
  function WrapOp(aead: Aead, plaintext: seq<byte>, iv: seq<byte>): Op {
    (key: Key) =>
      if key.kind.Aes256Gcm? then Ok(Sealed(aead.seal(key, iv, plaintext), iv)) else Err("not an encryption key")
  }

  function UnwrapOp(aead: Aead, ciphertext: seq<byte>, iv: seq<byte>): Op {
    (key: Key) =>
      if !key.kind.Aes256Gcm? then Err("not an encryption key")
      else match aead.open(key, iv, ciphertext)
           case None => Err("authentication failed")
           case Some(plaintext) => Ok(Plain(plaintext))
  }

  function SignOp(sign: (Key, seq<byte>) -> seq<byte>, message: seq<byte>): Op {
    (key: Key) => if key.kind.P256Signing? then Ok(Signature(sign(key, message))) else Err("not a signing key")
  }

  function InfoOp(): Op {
    (key: Key) => Ok(Info(key.kind))
  }

  // ---- Requests and answers ----

  datatype EncryptPayload = EncryptPayload(name: string, data: seq<byte>)

  datatype DecryptPayload = DecryptPayload(name: string, data: seq<byte>, iv: seq<byte>)

  datatype SignPayload = SignPayload(name: string, data: seq<byte>)

  /** A GetAttributes request: the attributes wanted, by name, or all when none is named. */
  datatype AttributesPayload = AttributesPayload(name: string, wanted: seq<string>)

  datatype Encrypted = Encrypted(name: string, data: seq<byte>, iv: seq<byte>)

  datatype Decrypted = Decrypted(name: string, data: seq<byte>)

  datatype Signed = Signed(name: string, signature: seq<byte>)

  datatype ObjectKind = SymmetricKey | PrivateKey | NoObject

  datatype Algorithm = Aes | Ecdsa | HmacSha256 | NoAlgorithm

  datatype Attribute = ObjectType(kind: ObjectKind) | CryptographicAlgorithm(algorithm: Algorithm)

  datatype Attributes = Attributes(name: string, list: seq<Attribute>)

  function AttributeName(a: Attribute): string {
    if a.ObjectType? then "Object Type" else "Cryptographic Algorithm"
  }

  /** Which object type and algorithm a kind of key goes by. */
  function KmipTypeFor(kind: KeyKind): (ObjectKind, Algorithm) {
    match kind
    case Aes256Gcm => (SymmetricKey, Aes)
    case P256Signing => (PrivateKey, Ecdsa)
    case HmacSha256 => (SymmetricKey, Algorithm.HmacSha256)
    case OtherKind => (NoObject, NoAlgorithm)
  }

  /** An Encrypt answer, by what the session replied. */
  function EncryptAnswer(p: EncryptPayload, reply: Reply): Result<Encrypted, Reason> {
    match reply
    case Answered(Sealed(ciphertext, iv)) => Ok(Encrypted(p.name, ciphertext, iv))
    case _ => Err(GeneralFailure)
  }

  function DecryptAnswer(p: DecryptPayload, reply: Reply): Result<Decrypted, Reason> {
    match reply
    case Answered(Plain(plaintext)) => Ok(Decrypted(p.name, plaintext))
    case _ => Err(GeneralFailure)
  }

  function SignAnswer(p: SignPayload, reply: Reply): Result<Signed, Reason> {
    match reply
    case Answered(Signature(sig)) => Ok(Signed(p.name, sig))
    case _ => Err(GeneralFailure)
  }

  /** What the session replies to a use of a key in the constellation as it is. */
  function SessionReply(w: Constellation, s: VaultAccess, name: string, op: Op, faults: nat -> Fault): Reply {
    ReplyTo(World(w, map[]), Use(s, name, op, faults))
  }

  /** A vault of the session's list holds this key under the name. */
  predicate Listed(w: Constellation, s: VaultAccess, name: string, ep: Endpoint, key: Key) {
    ep in s.endpoints && s.HandleOf(name) in KeysAt(w, ep) && KeysAt(w, ep)[s.HandleOf(name)] == key
  }

  /** A checker that accepts what is signed. */
  ghost predicate Verifies(sign: (Key, seq<byte>) -> seq<byte>, check: (Key, seq<byte>, seq<byte>) -> bool) {
    forall key, m :: check(key, m, sign(key, m))
  }

  // ---- The handlers; a payload is absent when it could not be decoded ----

  method HandleEncrypt(s: VaultAccess, net: Network, aead: Aead, p: Option<EncryptPayload>, iv: seq<byte>,
                       faults: nat -> Fault) returns (r: Result<Encrypted, Reason>)
    ensures r == Err(InvalidField) <==> p.None? || p.value.name == ""
    ensures p.Some? && p.value.name != "" ==>
              r == EncryptAnswer(p.value, SessionReply(net.vaults, s, p.value.name,
                                                       WrapOp(aead, p.value.data, iv), faults))
    ensures r.Ok? <==> p.Some? && p.value.name != "" &&
                       Used(net.vaults, s, p.value.name, WrapOp(aead, p.value.data, iv), faults).Some?
    ensures r.Err? ==> r.error.InvalidField? || r.error.GeneralFailure?
    ensures r.Ok? ==> r.value.name == p.value.name
    ensures r.Ok? && aead.Ideal() ==>
              exists ep, key :: Listed(net.vaults, s, p.value.name, ep, key) && key.kind.Aes256Gcm? &&
                                aead.open(key, r.value.iv, r.value.data) == Some(p.value.data)
  {
    if p.None? {
      return Err(InvalidField);
    }
    var q := p.value;
    if q.name == "" {
      return Err(InvalidField);
    }
    var res := s.WithHolder(net, s.HandleOf(q.name), WrapOp(aead, q.data, iv), faults);
    if res.Err? {
      return Err(GeneralFailure);
    }
    r := Ok(Encrypted(q.name, res.value.0.ciphertext, res.value.0.iv));
    ghost var ep, key := FoundAt(net.vaults, s.endpoints, s.HandleOf(q.name), WrapOp(aead, q.data, iv), faults);
    assert Listed(net.vaults, s, q.name, ep, key);
  }

  method HandleDecrypt(s: VaultAccess, net: Network, aead: Aead, p: Option<DecryptPayload>, faults: nat -> Fault)
      returns (r: Result<Decrypted, Reason>)
    ensures r == Err(InvalidField) <==> p.None? || p.value.name == "" || p.value.iv == []
    ensures p.Some? && p.value.name != "" && p.value.iv != [] ==>
              r == DecryptAnswer(p.value, SessionReply(net.vaults, s, p.value.name,
                                                       UnwrapOp(aead, p.value.data, p.value.iv), faults))
    ensures r.Ok? <==> p.Some? && p.value.name != "" && p.value.iv != [] &&
                       Used(net.vaults, s, p.value.name, UnwrapOp(aead, p.value.data, p.value.iv), faults).Some?
    ensures r.Err? ==> r.error.InvalidField? || r.error.GeneralFailure?
    ensures r.Ok? ==>
              && r.value.name == p.value.name
              && exists ep, key :: Listed(net.vaults, s, p.value.name, ep, key) && key.kind.Aes256Gcm? &&
                                   aead.open(key, p.value.iv, p.value.data) == Some(r.value.data)
  {
    if p.None? {
      return Err(InvalidField);
    }
    var q := p.value;
    if q.name == "" {
      return Err(InvalidField);
    }
    if |q.iv| == 0 {
      return Err(InvalidField);
    }
    var res := s.WithHolder(net, s.HandleOf(q.name), UnwrapOp(aead, q.data, q.iv), faults);
    if res.Err? {
      return Err(GeneralFailure);
    }
    r := Ok(Decrypted(q.name, res.value.0.plaintext));
    ghost var ep, key := FoundAt(net.vaults, s.endpoints, s.HandleOf(q.name), UnwrapOp(aead, q.data, q.iv), faults);
    assert Listed(net.vaults, s, q.name, ep, key);
  }

  method HandleSign(s: VaultAccess, net: Network, sign: (Key, seq<byte>) -> seq<byte>, p: Option<SignPayload>,
                    faults: nat -> Fault, ghost check: (Key, seq<byte>, seq<byte>) -> bool)
      returns (r: Result<Signed, Reason>)
    ensures r == Err(InvalidField) <==> p.None? || p.value.name == ""
    ensures p.Some? && p.value.name != "" ==>
              r == SignAnswer(p.value, SessionReply(net.vaults, s, p.value.name, SignOp(sign, p.value.data), faults))
    ensures r.Ok? <==> p.Some? && p.value.name != "" &&
                       Used(net.vaults, s, p.value.name, SignOp(sign, p.value.data), faults).Some?
    ensures r.Err? ==> r.error.InvalidField? || r.error.GeneralFailure?
    ensures r.Ok? ==> r.value.name == p.value.name
    ensures r.Ok? && Verifies(sign, check) ==>
              exists ep, key :: Listed(net.vaults, s, p.value.name, ep, key) && key.kind.P256Signing? &&
                                check(key, p.value.data, r.value.signature)
  {
    if p.None? {
      return Err(InvalidField);
    }
    var q := p.value;
    if q.name == "" {
      return Err(InvalidField);
    }
    var res := s.WithHolder(net, s.HandleOf(q.name), SignOp(sign, q.data), faults);
    if res.Err? {
      return Err(GeneralFailure);
    }
    r := Ok(Signed(q.name, res.value.0.sig));
    ghost var ep, key := FoundAt(net.vaults, s.endpoints, s.HandleOf(q.name), SignOp(sign, q.data), faults);
    assert Listed(net.vaults, s, q.name, ep, key);
  }

  method HandleGetAttributes(s: VaultAccess, net: Network, p: Option<AttributesPayload>, faults: nat -> Fault)
      returns (r: Result<Attributes, Reason>)
    ensures r == Err(InvalidField) <==> p.None? || p.value.name == ""
    ensures p.Some? && p.value.name != "" ==>
              match SessionReply(net.vaults, s, p.value.name, InfoOp(), faults)
              case Answered(Info(kind)) =>
                r.Ok? && r.value.name == p.value.name && Lists(r.value.list, kind, p.value.wanted)
              case _ => r == Err(ItemNotFound)
    ensures r.Ok? <==> p.Some? && p.value.name != "" && Used(net.vaults, s, p.value.name, InfoOp(), faults).Some?
    ensures r.Ok? ==> exists ep, key :: Listed(net.vaults, s, p.value.name, ep, key) &&
                                        Describes(r.value.list, key.kind, p.value.wanted)
  {
    if p.None? {
      return Err(InvalidField);
    }
    var q := p.value;
    if q.name == "" {
      return Err(InvalidField);
    }
    var res := s.WithHolder(net, s.HandleOf(q.name), InfoOp(), faults);
    if res.Err? {
      return Err(ItemNotFound);
    }
    var (objectKind, algorithm) := KmipTypeFor(res.value.0.kind);
    var list := FilterAttributes([ObjectType(objectKind), CryptographicAlgorithm(algorithm)], q.wanted);
    r := Ok(Attributes(q.name, list));
    ghost var ep, key := FoundAt(net.vaults, s.endpoints, s.HandleOf(q.name), InfoOp(), faults);
    assert Listed(net.vaults, s, q.name, ep, key);
    ListsDescribes(list, key.kind, q.wanted);
  }

  /** The two attributes that a list may hold, each there exactly when it was asked for by its name, or all were. */
  predicate Describes(list: seq<Attribute>, kind: KeyKind, wanted: seq<string>) {
    && (forall a | a in list ::
          a == ObjectType(KmipTypeFor(kind).0) || a == CryptographicAlgorithm(KmipTypeFor(kind).1))
    && (ObjectType(KmipTypeFor(kind).0) in list <==> wanted == [] || "Object Type" in wanted)
    && (CryptographicAlgorithm(KmipTypeFor(kind).1) in list <==> wanted == [] || "Cryptographic Algorithm" in wanted)
  }

  lemma ListsDescribes(list: seq<Attribute>, kind: KeyKind, wanted: seq<string>)
    requires Lists(list, kind, wanted)
    ensures Describes(list, kind, wanted)
  {
    assert ObjectType(KmipTypeFor(kind).0) in KindAttributes(kind);
    assert CryptographicAlgorithm(KmipTypeFor(kind).1) in KindAttributes(kind);
  }

  /**
  What GetAttributes tells of a key is what the other operations make of it: a symmetric AES key is one that a vault
  encrypts and decrypts with, a private ECDSA key one that it signs with.
  */
  lemma TypeTellsUse(key: Key, aead: Aead, sign: (Key, seq<byte>) -> seq<byte>, data: seq<byte>, iv: seq<byte>)
    ensures KmipTypeFor(key.kind) == (SymmetricKey, Aes) <==> WrapOp(aead, data, iv)(key).Ok?
    ensures UnwrapOp(aead, data, iv)(key).Ok? ==> KmipTypeFor(key.kind) == (SymmetricKey, Aes)
    ensures KmipTypeFor(key.kind) == (PrivateKey, Ecdsa) <==> SignOp(sign, data)(key).Ok?
    ensures KmipTypeFor(key.kind) == (SymmetricKey, Algorithm.HmacSha256) <==> key.kind == KeyKind.HmacSha256
  {
  }

  /** What there is to say of a kind of key. */
  function KindAttributes(kind: KeyKind): seq<Attribute> {
    [ObjectType(KmipTypeFor(kind).0), CryptographicAlgorithm(KmipTypeFor(kind).1)]
  }

  /** The list is what there is to say of a kind of key, in order, cut down to what was asked. */
  ghost predicate Lists(list: seq<Attribute>, kind: KeyKind, wanted: seq<string>) {
    && (forall a :: a in list <==> a in KindAttributes(kind) && (wanted == [] || AttributeName(a) in wanted))
    && Subsequence(list, KindAttributes(kind))
  }

  /** Keeps the named attributes, all when none is named. */
  method FilterAttributes(attrs: seq<Attribute>, names: seq<string>) returns (out: seq<Attribute>)
    ensures forall a :: a in out <==> a in attrs && (names == [] || AttributeName(a) in names)
    ensures Subsequence(out, attrs)
  {
    if |names| == 0 {
      SubsequenceOfSelf(attrs);
      return attrs;
    }
    out := [];
    for i := 0 to |attrs|
      invariant forall a :: a in out <==> a in attrs[..i] && AttributeName(a) in names
      invariant Subsequence(out, attrs[..i])
    {
      assert attrs[..i + 1] == attrs[..i] + [attrs[i]];
      if AttributeName(attrs[i]) in names {
        out := out + [attrs[i]];
      }
    }
    assert attrs[..|attrs|] == attrs;
  }

  /** `a` is `b` with some elements left out. */
  predicate Subsequence<T(==)>(a: seq<T>, b: seq<T>) {
    if a == [] then true
    else if b == [] then false
    else
      var (m, n) := (|a| - 1, |b| - 1);
      (a[m] == b[n] && Subsequence(a[..m], b[..n])) || Subsequence(a, b[..n])
  }

  lemma SubsequenceOfSelf<T>(a: seq<T>)
    ensures Subsequence(a, a)
  {
  }

  method HandleDestroy(s: VaultAccess, net: Network, name: string, faults: nat -> Fault)
      returns (r: Result<string, Reason>)
    modifies net
    ensures r == Err(InvalidField) <==> name == ""
    ensures r.Err? && name != "" ==> r.error.GeneralFailure?
    ensures name == "" || !s.policyOk ==> net.vaults == old(net.vaults)
    ensures name != "" && s.policyOk ==>
              net.vaults == AfterDeletes(old(net.vaults), s.endpoints, s.HandleOf(name), faults, |s.endpoints|)
    ensures r.Ok? <==> name != "" && s.policyOk && DestroyOk(old(net.vaults), s.endpoints, s.HandleOf(name), faults)
    ensures r.Ok? ==> r.value == name
  {
    if name == "" {
      return Err(InvalidField);
    }
    var res := s.Destroy(net, name, faults);
    if res.Err? {
      return Err(GeneralFailure);
    }
    r := Ok(name);
  }

  // ---- Encrypt and Decrypt, in flight with anything else ----

  /**
  What was encrypted decrypts to itself or not at all. In every run of operations in flight at once, with any faults,
  destroys and sessions of the same vault: let an Encrypt and a Decrypt request start after the i-th state and have
  their replies by the n-th, with no create of the key reaching a vault in between. If Encrypt answers with data and an
  IV, and Decrypt was asked to open these, an answer of Decrypt is the plaintext.
  */
  lemma DecryptUndoesEncrypt(states: seq<State>, moves: seq<Move>, i: nat, n: nat, aead: Aead,
                             u: nat, p: EncryptPayload, nonce: seq<byte>, v: nat, q: DecryptPayload)
    requires IsRun(states, moves) && Inv(states[0].world) && i <= n <= |moves| && aead.Ideal()
    requires |states[i].flights| <= u < |states[n].flights| && |states[i].flights| <= v < |states[n].flights|
    requires NoPlacing(states, moves, i, n, states[n].flights[u].call.Target())
    requires var (f, g) := (states[n].flights[u], states[n].flights[v]);
             && f.call.Use? && f.call.name == p.name && f.call.op == WrapOp(aead, p.data, nonce) && f.reply.Some?
             && g.call.Use? && g.call.name == q.name && g.call.op == UnwrapOp(aead, q.data, q.iv) && g.reply.Some?
             && g.call.s.vaultId == f.call.s.vaultId
    requires EncryptAnswer(p, states[n].flights[u].reply.value) == Ok(Encrypted(q.name, q.data, q.iv))
    requires DecryptAnswer(q, states[n].flights[v].reply.value).Ok?
    ensures DecryptAnswer(q, states[n].flights[v].reply.value) == Ok(Decrypted(p.name, p.data))
  {
    var f, g := states[n].flights[u], states[n].flights[v];
    var key := UsesAgree(states, moves, i, n, u, v, f.call.Target(), f.reply.value.a, g.reply.value.a);
    assert f.call.op(key) == Ok(f.reply.value.a) && g.call.op(key) == Ok(g.reply.value.a);
  }

  /**
  Signatures of a key check, each for its own message and all under one key. In every run of operations in flight at
  once: a Sign request that starts after the i-th state and is answered by the n-th answers with a signature of its own
  data under the key that the store holds in the i-th, with no create of the key reaching a vault in between.
  */
  lemma SignaturesCheck(states: seq<State>, moves: seq<Move>, i: nat, n: nat, sign: (Key, seq<byte>) -> seq<byte>,
                        check: (Key, seq<byte>, seq<byte>) -> bool, u: nat, p: SignPayload)
    requires IsRun(states, moves) && Inv(states[0].world) && i <= n <= |moves| && Verifies(sign, check)
    requires |states[i].flights| <= u < |states[n].flights|
    requires NoPlacing(states, moves, i, n, states[n].flights[u].call.Target())
    requires var f := states[n].flights[u];
             f.call.Use? && f.call.name == p.name && f.call.op == SignOp(sign, p.data) && f.reply.Some?
    requires SignAnswer(p, states[n].flights[u].reply.value).Ok?
    ensures var (h, signed) := (states[n].flights[u].call.Target(),
                                SignAnswer(p, states[n].flights[u].reply.value).value);
            && signed.name == p.name && h in Store(states[i].world)
            && Store(states[i].world)[h].kind.P256Signing?
            && check(Store(states[i].world)[h], p.data, signed.signature)
  {
    var f := states[n].flights[u];
    UsesOneKey(states, moves, i, n, u, f.call.Target(), f.reply.value.a);
  }
}
