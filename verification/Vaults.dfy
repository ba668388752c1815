/**
The vault constellation as the gateway's sessions see it (internal/vault/session.go): vaults hold keys by handle, and
any dial or call may fail, with or without having taken effect.
*/
module Vaults {
  import opened Bytes
  import opened Wrappers

  type Endpoint = string
  type Handle = string
  type Text = string

  /** What a vault can hold; the gateway creates only the first two. */
  datatype KeyKind = Aes256Gcm | P256Signing | HmacSha256 | OtherKind

  datatype Key = Key(kind: KeyKind, material: seq<byte>)

  type Keys = map<Handle, Key>

  /** What every vault holds. */
  type Constellation = map<Endpoint, Keys>

  function KeysAt(w: Constellation, ep: Endpoint): Keys { if ep in w then w[ep] else map[] }

  predicate Holds(w: Constellation, ep: Endpoint, h: Handle) { h in KeysAt(w, ep) }

  /** At most one vault holds the key. */
  ghost predicate OneHolder(w: Constellation, h: Handle) {
    forall ep, ep' :: Holds(w, ep, h) && Holds(w, ep', h) ==> ep == ep'
  }

  /**
  What happens on one visit to a vault. A failed call that was to change the vault may have taken effect all the same:
  `applied` says whether only its answer was lost.
  */
  datatype Fault = Works | DialFails(text: Text) | CallFails(text: Text, applied: bool)

  const NOT_FOUND := "not found"

  /** How a vault answers for a key it does not hold. */
  const ABSENT := "key not found"

  /** Go's `strings.Contains`. */
  predicate Contains(s: Text, t: Text) {
    t <= s || (s != [] && Contains(s[1..], t))
  }

  /** The text `t` stands in `s` from the i-th character on. */
  predicate At(s: Text, t: Text, i: nat) { i + |t| <= |s| && s[i..i + |t|] == t }

  /** A text is contained where it stands, at whatever place. */
  lemma {:induction false} ContainsExactly(s: Text, t: Text)
    ensures Contains(s, t) <==> exists i: nat :: At(s, t, i)
  {
    if t <= s {
      assert At(s, t, 0);
    } else if s != [] {
      ContainsExactly(s[1..], t);
      if i: nat :| At(s[1..], t, i) {
        AtLater(s, t, i);
      }
      AtFront(s, t);
      if i: nat :| At(s, t, i) {
        AtLater(s, t, i - 1);
      }
    }
  }

  lemma AtFront(s: Text, t: Text)
    ensures At(s, t, 0) <==> t <= s
  {
  }

  lemma AtLater(s: Text, t: Text, i: nat)
    requires s != []
    ensures At(s[1..], t, i) <==> At(s, t, i + 1)
  {
    if i + 1 + |t| <= |s| {
      assert s[1..][i..i + |t|] == s[i + 1..i + 1 + |t|];
    }
  }

  /** An error counts as "not found" exactly when its text says so somewhere. */
  lemma NotFoundExactly(text: Text)
    ensures SaysNotFound(text) <==> exists i: nat :: At(text, "not found", i)
  {
    ContainsExactly(text, NOT_FOUND);
  }

  predicate SaysNotFound(text: Text) { Contains(text, NOT_FOUND) }

  lemma AbsentSaysNotFound()
    ensures SaysNotFound(ABSENT)
  {
    assert NOT_FOUND <= ABSENT[1..][1..][1..][1..];
    assert Contains(ABSENT[1..][1..][1..], NOT_FOUND);
    assert Contains(ABSENT[1..], NOT_FOUND);
  }

  /** A vault's answer to a use of a key, on a visit that got through the dial. */
  function Ask<T>(keys: Keys, h: Handle, op: Key -> Result<T, Text>, f: Fault): Result<T, Text> {
    if f.CallFails? then Err(f.text) else if h in keys then op(keys[h]) else Err(ABSENT)
  }

  /** A vault after it was told to delete a key. */
  function Deleted(keys: Keys, h: Handle, f: Fault): Keys {
    if TakesEffect(f) then keys - {h} else keys
  }

  predicate TakesEffect(f: Fault) { f.Works? || (f.CallFails? && f.applied) }

  /** A vault after it was told to create a key; one it already holds is replaced or kept. */
  function Created(keys: Keys, h: Handle, key: Key, f: Fault, overwrites: bool): Keys {
    if TakesEffect(f) && (h !in keys || overwrites) then keys[h := key] else keys
  }
}
