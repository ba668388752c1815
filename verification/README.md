# Verified model of the KMIP gateway

A Dafny model of four parts of the KMIP gateway, with proofs of what they promise:

- **The response-header strip** (`Bytes`, `Ttlv`, `WellFramed`, `StripCorrelation`, `StripLaws`). The gateway cuts the
  Client and Server CorrelationValue elements out of an encoded response and patches two nested length fields in place.
  The loops of the program are kept as loops and proved against `Stripped`, a definition without any walk: lay the input
  out as a message that holds a header that holds correlation values, and lay it out again without them. TTLV is the
  encoding of section 9.1.1 of the KMIP Specification 1.4; `Encode` computes every length and all padding from a message
  tree.
- **Framing and relay** (`Framing`, `Relay`, `Connections`). Reading KMIP messages off a connection that delivers its
  bytes in chunks of any size, the proxy's loop over one client connection, and the gateway's `POST /kmip`, under any
  mix of lost requests, lost replies and cut writes; and any number of such connections interleaved on one gateway.
- **The self-config loop** (`ConfigLoop`, `ConfigManager`, `TokenExpiry`). Any number of submissions at once, one loop,
  a capacity-1 channel and timers, as a state machine over interleaved steps; the objects the program updates take those
  steps. The attestation token's lifetime is settled by an exact condition on the loop's constants.
- **The vault constellation** (`Vaults`, `Session`, `KeyStore`, `KeyRuns`, `Interleaved`, `KmipHandlers`). Sessions
  create, use and destroy keys over endpoints that may fail in any way, with or without the call having taken effect.
  No key ever has two holders, and every run is a run of one map from handle to key: in `KeyRuns` one operation at a
  time, in `Interleaved` with any number of operations in flight at once and one visit to one vault as a step, where
  they are linearizable.

`dafny verify dfyconfig.toml` verifies the whole project.

## How to read the model

- Byte strings are sequences of a `byte` type; Go's `int` is taken as 64 bits wide, so the sums of offsets and lengths
  here do not wrap. The conversion to `uint32` is modelled with its truncation, and the proofs show it cuts nothing.
- Byte slices are modelled as values. The strip reads its input and appends to fresh slices, and never writes through
  an input slice.
- The handler behind the strip is an arbitrary function of how many requests came before and of the request, so it may
  answer differently every time.
- A fault is given for every visit to a vault: the dial fails, the call fails (having taken effect or not), or it works.
  Error texts are arbitrary, so a text may contain "not found" for other reasons.
- Time is counted in nanoseconds. Timers fire on time, and the work between two steps of the loop takes no time; a
  discovery takes as long as it likes, except where `TokenExpiry` bounds it. The 45-second context of a discovery does
  not bound the identity evidence call (`internal/identity/manager.go:67` ignores it), so that bound is an assumption.
- The one assumption of the key runs is about the platform: a grant carries the handle of the name asked for, and a
  handle is never granted first on two different vaults. `TwoGrantsTwoHolders` shows that the latter is needed.
- Of destroys nothing is assumed. Vaults may say "not found" of keys they hold, and sessions may list any vaults. What
  such a destroy's success is worth is part of the statements: it tells that the key is gone if some visit deleted the
  key, or if there was no key, or if the session lists the vault that the key was granted on and no vault misreported
  the key to it (`KeyRuns.Trusted`, `Interleaved.Reliable`); otherwise it tells as little as a refusal, and all else
  still holds.
- A call to a vault that fails has taken effect or not. In `Interleaved` it may also take effect later, even after its
  operation has replied (`Land`).

## Where the code and its documentation differ

- The strip's comment says that malformed input comes back unchanged (`internal/kmip/server.go:96`). The code walks the
  elements up to the response header and then the header's children; it never looks inside the elements it passes, nor
  at what follows the header. `MalformedYetStripped` gives an input with a stray byte after the header,
  `MalformedInsideYetStripped` one in which only the inside of a header's child is broken; both are changed.
  `MalformedUnchangedExactly` says for which inputs the comment holds. Well formed means here: elements at every depth
  (`WellFramed.Sound`). Every encoded tree is (`WellFramed.DecodeEncode`), and whatever is well formed and padded with
  zeros is an encoded tree (`WellFramed.EncodeDecode`). Bytes after the message, and the lengths that the standard fixes
  for single value types, are not looked at.
- A destroy that reports success is meant to have removed the key. With one holder, `DestroyLeavesExactly` says for
  every pattern of faults when it has not: no visit took effect on the holder, and all that failed was told "not found".
  `UnlistedHolderSurvives` is such an input without any fault, a holder that the session's list lacks.
  `DestroyRemovesExactly` says for which constellations and lists success can be relied on as long as vaults tell the
  truth: those in which the list names every holder and there is one at most. `DestroyReliableExactly` says the same of
  the listed vaults alone.

## Model

| member | source | states |
|---|---|---|
| Bytes.AppendU32 | internal/kmip/server.go:178-182 | appends the four bytes that read as the value cut to 32 bits |
| Bytes.BigEndianOrder | internal/kmip/server.go:101 | a length field is read with its most significant byte first: the first differing byte decides which of two fields is larger |
| Ttlv.TagOrder | internal/kmip/server.go:163 | a tag is read with its most significant byte first, and fits three bytes |
| Ttlv.ReadingsAgree | internal/kmip/server.go:106-126 | two readings of the same bytes as elements never disagree: one is a prefix of the other and continues with what the other left |
| Ttlv.UniqueSplit | internal/kmip/server.go:141-152 | a byte string is a sequence of aligned elements in at most one way |
| Ttlv.WalkDecomposes | internal/kmip/server.go:106-126 | every byte string is, in exactly one way, elements followed by a rest where a walk stops; it is all elements exactly when nothing is left |
| Ttlv.EncodePrefixFree | internal/kmip/correlation_test.go:57-61 | no encoded tree is a prefix of another, so encoded bytes determine the tree and what follows it |
| WellFramed.DecodeEncode | internal/kmip/correlation_test.go:57-61 | every encoded tree is well formed at every depth and decodes to itself |
| WellFramed.EncodeDecode | internal/kmip/correlation_test.go:57-61 | every byte string that is an element at every depth decodes to a well-formed tree whose encoding has the same size, and is that encoding when its padding is zero |
| StripCorrelation.ElemFullLen | internal/kmip/server.go:167-176 | the full size of the element at the front, padding to eight bytes included, or -1 when there is no room for a header |
| StripCorrelation.StripHeaderCorrelation | internal/kmip/server.go:133-161 | removes bytes exactly when the value is a sequence of elements with a correlation value among them, and then keeps the other children in order under a recomputed length |
| StripCorrelation.KeepSnoc | internal/kmip/server.go:141-152 | of a header's children each correlation value is left out and each other one is kept, in order |
| StripCorrelation.StripResponse | internal/kmip/server.go:97-128 | on every byte string, the result is the input laid out again without its first header's correlation values, or the input itself when it has no such layout |
| StripCorrelation.HeaderFound | internal/kmip/server.go:156-160 | a header whose value walks to its end has a length that is a multiple of eight and carries no padding, so copying none loses none |
| StripCorrelation.LayoutUnique | internal/kmip/server.go:106-126 | an input has at most one layout: the first header, its children and what surrounds it are determined |
| StripCorrelation.StrippedLayout | internal/kmip/server.go:116-123 | everything before, between and after the correlation values survives in order, trailing bytes included, with both lengths recomputed |
| StripLaws.StripsExactlyWhen | internal/kmip/server.go:113-115 | the output differs from the input exactly when a layout with correlation values exists, and is then shorter |
| StripLaws.StripFields | internal/kmip/server.go:116-123 | the message length and the size drop by the same positive multiple of eight, and nothing is cut off the new length |
| StripLaws.StripIdempotent | internal/kmip/correlation_test.go:69-72 | stripping twice is stripping once, on every byte string |
| StripLaws.StripKeepsFraming | internal/kmip/server.go:116-123 | one aligned message in gives one aligned message out, no longer than before |
| StripLaws.MalformedUnchangedExactly | internal/kmip/server.go:95-97 | malformed input comes back unchanged exactly when it is not a message with a strippable header and an element before it, a child, or bytes after it that are malformed at some depth |
| StripLaws.MalformedYetStripped | internal/kmip/server.go:95-97 | an input with a stray byte after its header is malformed and is changed all the same |
| StripLaws.MalformedInsideYetStripped | internal/kmip/server.go:141-152 | an input whose walked elements are all in order, malformed only inside a child of the header, is changed too |
| StripLaws.PartsDecide | internal/kmip/server.go:106-126 | a message value is well formed at every depth exactly when what comes before its header, the header's children and what follows are |
| StripLaws.StripEncoding | internal/kmip/server.go:97-128 | for every well-formed tree and any trailing bytes, the strip of the encoding is the encoding of the tree without its first header's correlation values |
| StripLaws.StripTreeWellFormed | internal/kmip/correlation_test.go:57-67 | the stripped tree is well formed |
| StripLaws.StripDecodesTo | internal/kmip/correlation_test.go:57-67 | the only tree a stripped message can be read as is the stripped tree |
| StripLaws.OnTheWire | internal/kmip/correlation_test.go:41-63 | a response in plain bytes, with both correlation values, other elements and a trailing byte, and what becomes of it |
| Framing.Conn.ReadFull | cmd/kmip-proxy/main.go:181-191 | the first bytes of the stream whatever the chunks, or how the stream stopped |
| Framing.Conn.ReadTtlv | cmd/kmip-proxy/main.go:179-193 | the message the stream starts with, whatever the chunks, leaving the rest of the stream to be read |
| Framing.ReadsExactly | cmd/kmip-proxy/main.go:179-193 | each way that reading a message ends, exactly when: the message, a value of more than 16 MiB, a broken connection, the end of the stream, or the end inside a message |
| Framing.ReadBack | cmd/kmip-proxy/main.go:179-193 | messages written one after the other are read back one by one, in order, whatever follows |
| Framing.ReadBackAll | cmd/kmip-proxy/main.go:109-115 | with nothing after them, reading them ends in end-of-stream |
| Framing.CutReadsFirst | cmd/kmip-proxy/main.go:179-193 | a series of messages cut at any byte reads back as its first few |
| Framing.ReadsPrefix | cmd/kmip-proxy/main.go:109-115 | on any stream, what is read is a series of messages the stream starts with, and reading stops in end-of-stream exactly after nothing or after a bare header that announces a value |
| Framing.FrameAgreesWithWalk | internal/kmip/server.go:167-176 | the proxy's frame and the strip's element are the same bytes exactly when the length is a multiple of eight |
| Relay.Gateway.HandleMessage | internal/kmip/server.go:84-89 | handles the request and answers with the stripped response |
| Relay.Gateway.HandleKmip | internal/control/server.go:130-145 | unavailable without a session, refused when empty or unreadable, and otherwise handles the first 2^20 bytes of the body |
| Relay.Exchange | cmd/kmip-proxy/main.go:116-133 | one turn of the loop: at most one message handled, and a prefix of its stripped response written back, all of it if the loop goes on |
| Relay.Serve | cmd/kmip-proxy/main.go:100-135 | the gateway handles the client's first messages in order, and the client receives their stripped responses, the last of them perhaps cut; the loop stops exactly when a message is not handled or its answer does not arrive, or none is left |
| Relay.ClippedExactly | internal/control/server.go:136 | the handler sees each message's first 2^20 bytes, so all of them unchanged exactly when each is at most that long |
| Relay.ClientReads | cmd/kmip-proxy/main.go:131-133 | whatever went wrong, the messages a client can read are the stripped responses to its own first messages, in order and undamaged |
| Connections.EachClientServed | cmd/kmip-proxy/main.go:100-135 | over every interleaving of any number of connections the gateway handles each client's first messages in order, and each client receives a byte prefix of the stripped responses to its own |
| Connections.IdleExactly | cmd/kmip-proxy/main.go:109-134 | a connection comes to rest exactly when all its messages were handled and answered in full, or one was not; in the first case its client has received all the answers |
| Connections.Turn | cmd/kmip-proxy/main.go:109-134 | the proxy's turn is the machine's two steps: the request handled, the part received, and going on exactly when the request was handled and its answer arrived |
| Connections.EachClientReads | cmd/kmip-proxy/main.go:131-133 | the messages any client can read are stripped responses to its own first requests, undamaged and in order, and never another client's |
| ConfigLoop.NextKeepsInv | main.go:199-249 | every step of submissions, loop and clock keeps the loop's invariant |
| ConfigLoop.NoLostWakeup | main.go:149-157 | in every reachable state a loop that holds an overwritten configuration has a token waiting or a submission about to send one |
| ConfigLoop.QuiescentIsCurrent | main.go:199-249 | once nothing is on its way, the last attempt used the latest configuration, and if it succeeded the session serves its vault |
| ConfigLoop.SessionProvenance | main.go:219-232 | handler and session are one, and each of its fields comes from the configuration and the discovery of the latest attempt that found its vault among the owner's, as does the expiry of its token |
| ConfigLoop.StaleRecovers | main.go:245-248 | in every continuation without a further write a loop that holds an overwritten configuration goes on to attempt the latest one: until then a step that waits for no clock is always possible, for a sleeping loop the send or the reload, and only a bounded number of such steps can come first |
| ConfigLoop.ReloadsPaidFor | main.go:153-156 | reloads never outnumber the submissions that pay for them |
| ConfigLoop.LongestFitOnly | main.go:233-241 | there is exactly one such wait, and it is how long the state machine's loop sleeps |
| TokenExpiry.RunOnTime | main.go:233-243 | in every conforming run the loop is never later than its last success and the failures since allow |
| TokenExpiry.NeverLapsesExactly | main.go:193-248 | over every run, no installed token lapses if and only if the shortest-lived token outlasts its sleep by all tolerated failures and one more discovery |
| TokenExpiry.GatewayDiscoveryBound | main.go:193-198 | with the gateway's constants one failure is survived exactly when discoveries take at most 45 s, and two in a row exactly when they take at most 20 s |
| TokenExpiry.GatewayExactly | main.go:193-241 | with the gateway's constants, for tokens of any life and any number of failures in a row, the exact bound on discoveries |
| TokenExpiry.GatewayTokenLife | main.go:193-198 | with 45 s discoveries and one failure, no token lapses exactly when tokens are vended with at least three minutes left |
| TokenExpiry.LapsingRun | main.go:205-248 | when the condition fails, a run that lapses, with tokens vended in whole seconds |
| ConfigManager.ControlServer.SetSession | internal/control/server.go:69-74 | replaces session and handler together |
| ConfigManager.Manager.SetConfig | main.go:149-152 | the write step of a submission |
| ConfigManager.Manager.Notify | main.go:153-156 | the send step of a submission, which never waits and never stores a second token |
| ConfigManager.Manager.Snapshot | main.go:200-204 | the loop's snapshot step |
| ConfigManager.Manager.FinishAttempt | main.go:205-244 | the end of an attempt: the fields of the session installed, nothing installed after an error, a panic or an unowned vault, and how long the loop sleeps in each case |
| ConfigManager.Manager.RefreshIn | main.go:233-241 | the wait before the next discovery is the longest one within the limit that ends a margin before the token lapses, and the shortest allowed when none that long fits |
| ConfigManager.Owns | internal/platform/client.go:194-201 | whether the vault is among the owner's vaults |
| Vaults.ContainsExactly | internal/vault/session.go:356 | a text is contained in another exactly when it stands there at some place |
| Vaults.NotFoundExactly | internal/vault/session.go:356 | an error counts as "not found" exactly when its text says so, at whatever place |
| Session.VaultAccess.WithHolder | internal/vault/session.go:272-297 | succeeds exactly when some endpoint both dials and answers, with the first such answer; the "not found" test touches only the error text |
| Session.FirstAnswer | internal/vault/session.go:279-295 | the first endpoint that both dials and answers, or none when none does |
| KeyStore.FoundExactly | internal/vault/session.go:270-297 | with one holder a use succeeds exactly when some visit gets through to the holder and the key gives an answer, and with that answer |
| Session.VaultAccess.Destroy | internal/vault/session.go:341-368 | every visit that takes effect deletes the key there; success exactly when some visit deleted the key or no visit failed otherwise than "not found" |
| Session.VaultAccess.Create | internal/vault/session.go:203-239 | at most one call, to the first granted endpoint, once every earlier stage succeeded; success exactly when that call took effect and was answered |
| KeyStore.CreateKeepsOthers | internal/vault/session.go:228-238 | a create touches no other key, and no key at all that its vault does not overwrite |
| Session.DeletesOnlyThere | internal/vault/session.go:348-363 | a destroy changes nothing but the one key, and only where a deleting visit reached |
| Session.FailsHardExactly | internal/vault/session.go:350-360 | a visit counts against a destroy exactly when its dial fails, or its call does with a text that says "not found" nowhere |
| KeyStore.HandlesCollideExactly | internal/vault/session.go:101-103 | two vault ids share a handle, for some names, exactly when one is the other followed by a slash and more |
| KeyStore.HandlesDistinct | internal/vault/session.go:101-103 | ids without slashes never share a handle, whatever the names |
| KeyStore.HandleShape | internal/vault/session.go:101-103 | a handle is the vault's path and the key's name |
| KeyStore.SameForAnyOrder | internal/vault/session.go:270-297 | with one holder, any two successful uses agree, whatever the endpoint orders and faults |
| KeyStore.OrderIrrelevant | internal/vault/session.go:270-297 | with one holder and faults that depend on the endpoint, reordering endpoints changes neither success nor value |
| KeyStore.DestroyLeavesExactly | internal/vault/session.go:346-367 | with one holder, listed or not, a destroy that reports success has left the key there exactly when no visit took effect on the holder and nothing failed but with "not found" |
| KeyStore.DestroyOkIsGone | internal/vault/session.go:364-367 | when "not found" is said only of absent keys and at most one listed vault holds the key, success means no endpoint of the list holds it |
| KeyStore.DestroyReliableExactly | internal/vault/session.go:346-367 | for every constellation and list, every truthful success removes the key from the listed vaults if and only if at most one of them holds it |
| KeyStore.DestroyRemovesExactly | internal/vault/session.go:346-367 | for every constellation and list, every truthful success removes the key from all vaults there are if and only if the list names every holder and there is one at most |
| KeyStore.UnlistedHolderSurvives | internal/vault/session.go:346-367 | a destroy without any fault reports success and leaves the key on a holder that its list lacks |
| KeyRuns.StepRefines | internal/vault/session.go:203-368 | every create, use and destroy under every fault is a step of one key map, by what its reply tells, and keeps every key on the vault it was granted on |
| KeyRuns.Perform | internal/vault/session.go:203-368 | the session's own create, use and destroy do to the vaults what the steps of a run do, and reply the same |
| KeyRuns.RunOneHolder | internal/vault/session.go:270-297 | no key ever has two holders in any run, whatever vaults say and sessions list |
| KeyRuns.RunRefinesStore | internal/vault/session.go:199-368 | every run is a run of one key map by what the replies tell, and by the replies themselves when every successful destroy can be relied on |
| KeyRuns.RunsFromNothing | internal/vault/session.go:199-368 | every run that starts before any key exists is a run of an empty map, and no key ever has two holders |
| KeyRuns.KeyOnlyDisappears | internal/kmip/server_test.go:276-289 | without a create a key is what it was or gone, and every answered use used that key |
| KeyRuns.CreatedIsUsed | internal/vault/session.go:195-199 | what a successful create put there is what answers every later use, until the next create |
| KeyRuns.DestroyedStaysGone | internal/kmip/server_test.go:276-289 | after a destroy whose success can be relied on every use of the key is refused, by every session and after any other destroys, until a new create |
| KeyRuns.OtherVaultsLeaveKeys | internal/vault/session.go:101-103 | sessions for other vaults never change a vault's keys |
| KeyRuns.TwoGrantsTwoHolders | internal/vault/session.go:229-237 | a platform that grants one handle on two vaults puts the key on both when a create's answer is lost |
| Interleaved.MoveRefines | internal/vault/session.go:203-368 | with any operations in flight, every visit and every late effect keeps each key on the vault it was granted on, and changes the key map only as its own operation may |
| Interleaved.AlwaysOneHolder | internal/vault/session.go:270-297 | in no state of any interleaving, with any faults and late effects, does a key have two holders |
| Interleaved.RunBacked | internal/vault/session.go:279-363 | every finished operation did to the key map what its reply says, in one of its own steps, unless it is a destroy that deleted nothing and is not honest |
| Interleaved.Linearizable | internal/vault/session.go:199-368 | in every interleaving the operations, ordered by one step of each, are a run of one key map by what their replies tell, and operations that do not overlap keep their order if nothing of the earlier one lands late |
| Interleaved.DestroyedStaysGone | internal/kmip/server_test.go:276-289 | after a destroy with a success to rely on no use that starts later is answered, whatever else is in flight, until a create of the key reaches a vault |
| Interleaved.UsesAgree | internal/vault/session.go:270-297 | all answered uses of a key were answered by one and the same key, as long as no create of it reaches a vault meanwhile |
| Interleaved.UsesOneKey | internal/vault/session.go:270-297 | every such use was answered by the key that the store held when they began |
| Interleaved.AloneIsAct | internal/vault/session.go:279-363 | an operation whose visits nothing comes between does what it does as one step, and replies the same |
| Interleaved.SoloRun | internal/vault/session.go:203-368 | in every state an operation can be started and run to its end without waiting for another, and does and replies what it does as one step |
| KmipHandlers.HandleEncrypt | internal/kmip/server.go:248-263 | an undecodable payload or an empty name is an invalid field; otherwise it answers exactly when some listed vault does, with data that a listed vault's AES key opens to the plaintext under the IV of the answer, or fails in general |
| KmipHandlers.HandleDecrypt | internal/kmip/server.go:279-297 | an undecodable payload, an empty name or an empty IV is an invalid field; otherwise it answers exactly when some listed vault does, with what a listed vault's AES key opens the data to, or fails in general |
| KmipHandlers.HandleSign | internal/kmip/server.go:314-329 | an undecodable payload or an empty name is an invalid field; otherwise it answers exactly when some listed vault does, with a signature of the data that checks under a listed vault's signing key, or fails in general |
| KmipHandlers.HandleGetAttributes | internal/kmip/server.go:345-365 | an undecodable payload or an empty name is an invalid field, a refused lookup is not found; otherwise the object type and algorithm of a listed vault's key, each exactly when it was asked for by name or all were |
| KmipHandlers.TypeTellsUse | internal/kmip/attrs.go:94-104 | a key is told to be symmetric AES exactly when vaults encrypt with it, and private ECDSA exactly when they sign with it |
| KmipHandlers.FilterAttributes | internal/kmip/attrs.go:107-122 | keeps exactly the named attributes, in order, and all when none is named |
| KmipHandlers.HandleDestroy | internal/kmip/server.go:221-229 | an empty name is an invalid field and touches no vault; otherwise the session's destroy, whose failure is a general one |
| KmipHandlers.DecryptUndoesEncrypt | internal/kmip/server.go:248-297 | in every interleaving, what Encrypt answers and Decrypt is then asked to open comes back as the plaintext whenever Decrypt answers, as long as no create of the key reaches a vault meanwhile |
| KmipHandlers.SignaturesCheck | internal/kmip/server.go:314-329 | in every interleaving all answered Sign requests for a key give signatures that check, each of its own data, under one key |

## Left out

- TLS, RA-TLS, quote verification, certificate and key generation: dials and vault calls are an oracle instead.
- The gemalto KMIP library (request parsing, batch handling, response marshalling): not part of this model; responses are arbitrary bytes.
- Handlers that overlap inside the gateway: `Connections` takes them in some order; `Interleaved` looks at what overlaps in the vaults.
- The JSON bodies of refused HTTP requests: the proxy drops them, so they are empty here.
- The endless loop of `run` itself: its uninterrupted stretches are methods and the state machine strings them together, because the program's loop never ends.
- Saturation of time arithmetic at the limits of 64 bits: the refresh is bounded on both sides, so it does not change the wait.
- Config persistence, the freeze gate and the environment: file and network I/O.
- The Create and Locate handlers, key-type selection and policy builders: single-function value copying.
- KmipHandlers.DecryptUndoesEncrypt: says nothing of the answer when a vault refuses, because a vault may always refuse.
- Connections.EachClientReads: assumes of the responses what `Relay.ClientReads` does.
- Relay.ClientReads: assumes the handler's responses are single aligned messages within the proxy's size limit, because the library that makes them is not part of this model.
