# Hanko, verified

A Dafny model of the Hanko broker and of the laws it is built on. The broker issues
sigils (identities) and capability tokens, signs envelopes that carry them, and
verifies such envelopes while other verifications, revocations and the clock run on.

| part | files |
|---|---|
| the store, the broker's operations and what they do together | `Protocol`, `Store`, `Broker`, `Lifecycle` |
| `VerifyAttestation` alone and under every interleaving | `Verification`, `Interleaving`, `VerifyTheorems`, `Schedules`, `Progress`, `AtomicReplay`, `Crossing` |
| canonical JSON, from text and UTF-8 up, and what a signature covers | `Text`, `Encoding`, `Utf8`, `Utf16`, `Sorting`, `Json`, `Canonical`, `Jcs`, `Marshal`, `Rfc3339`, `TimeForms`, `Documents`, `Attestation`, `WireText`, `GoStrings`, `JcsEnvelopes` |
| the brute-force detector | `GoInt`, `Detector`, `DetectorRuns` |
| the event publisher and its subjects | `Publisher`, `Subjects` |
| configuration reload | `Reload`, `ReloadRuns`, `ReloadOverlap` |
| change data capture | `Cdc` |
| the exchange of an identity provider's token | `Jwks`, `Oidc` |

`dafny verify dfyconfig.toml` covers the whole project.

Objects that the code updates in place are classes (`MemStore`, `HankoBroker`,
`BruteForceDetector` with its slices compacted in their own arrays, `NatsPublisher`
with its ring, `ConfigReloader`, `CdcDecoder`, `IdpJwksCache`). Each method is proved
against a function on the object's abstract value, and the theorems about whole runs
are about that function. Concurrency is a transition system in which every operation
under the store's lock, every clock reading and every counter update is one step of
one call. `Next` is total, an action that is not enabled changes nothing, so every
sequence of actions is a run and the theorems hold for all of them.

Randomness (ids, nonces), clock readings, network outcomes, Ed25519, SHA-256 and the
verification of a provider's JWT are parameters. Where a law needs something of them
it is a visible precondition: a signature verifies under its own key, or a key
verifies nothing but issued messages.

## Where the code and its documentation differ

The model follows the code.

- A comment says that the revocation counter moves on every outcome. Only acceptance
  and the two revocation errors move one (broker/broker.go:255 against 273-309).
- A comment in the drain says that an event whose publish fails is put back. It is
  lost (internal/observability/nats_publisher.go:233-236).
- A comment says that null columns are skipped. They become empty strings
  (internal/observability/cdc.go:234 against 248-249).
- The documentation calls the format RFC 8785. Keys are sorted by UTF-8 bytes, which
  is code point order and not the UTF-16 order of its section 3.2.3, and strings carry
  Go's HTML escapes, which its section 3.2.2.2 does not allow. A cap for the scope
  `a<b` shows it: `JcsEnvelopes.ExampleIsNotJcs`. Exactly when the bytes are those of
  the standard: `Jcs.JcsExactly` for any value, `JcsEnvelopes.SignedBytesAreJcs` for
  what is signed.

## Laws that turn out not to hold, and exactly when they do

- Of two calls on clean envelopes with fresh nonces one should be accepted. Some run
  refuses both, although each alone would have been accepted, if and only if the
  envelopes cross: each comes to a nonce that the other carries earlier, with nothing
  shared before. `Crossing.RefusesBothExactly`, for envelopes of any length. Two calls
  on one envelope never refuse each other: `Crossing.SameEnvelopeNeverCrosses`.
  Whenever two calls do not both fail, they end as if made one after the other:
  `Crossing.OtherwiseInTurn`.
- A reload can undo another one that it overlaps: `ReloadOverlap.OverlapLosesUpdate`.
  No change is ever lost in a run if and only if at each commit the snapshot agrees with
  the configuration it replaces on every key that the payload does not name:
  `ReloadOverlap.SequentialExactly`. It suffices that no commit falls between a
  request's snapshot and its own commit: `ReloadOverlap.UndisturbedIsSequential`.
- The detector's list is the closed window in every run with ordered timestamps if and
  only if the setting is at most 9223372036 seconds: `DetectorRuns.WindowIsExact`. One
  second more wraps to a negative window, and the detector never alerts unless one
  failure is enough: `DetectorRuns.WrappedWindowNeverAlerts`.
- The signed bytes determine an envelope byte for byte, up to its signature, if and only
  if its strings are valid UTF-8 without U+FFFD: `GoStrings.SignedBytesBindExactly`.
- A policy lookup can answer with the row of another identity:
  `Oidc.SeparatorConfusesIdentities`; exactly when it does not: `Oidc.LookupExactness`.
- A time to live of more than 9223372036 seconds in the policy wraps:
  `Oidc.TtlWraps`; exactly when the result is the intended one: `Oidc.TtlExactness`.
- A subject can be split back into its parts exactly if none contains a dot, and the
  last token is the correlation id exactly if that has none: `Subjects.SubjectSplits`,
  `Subjects.LastTokenIsCorrId`.
- The column diff of an event is more than its hashes tell exactly if a changed
  column's hashes collide: `Cdc.DiffFromHashes`.

## Model

| member | source | states |
|---|---|---|
| `VerifyTheorems.AcceptedHasLinearizationPoint` | broker/broker.go:260-310 | in every interleaving a call that returned nil has an instant, its own sigil check, at which the whole check done atomically accepts: sigil and caps unrevoked, envelope and caps unexpired, all nonces fresh and pairwise different |
| `AtomicReplay.ReplayAccepts` | broker/broker.go:260-310 | replaying a run with one atomic verification at each accepted call's sigil check, the other traffic and the clock kept and all other steps left out, accepts every one of them again |
| `AtomicReplay.ReplayEnds` | broker/broker.go:260-310 | that replay ends with the same sigils, caps and revocations, and with the nonces of the start, the other traffic and the accepted calls; the run has those and what calls that were not accepted consumed |
| `AtomicReplay.SigilCheckOnce` | broker/broker.go:270-276 | a call reads the revocation state of its sigil once |
| `VerifyTheorems.FindSigilCheck` | broker/broker.go:270-304 | every call past its sigil check has one such step in the run, and all it has checked since already held there, because revocation, consumption and time only move forward |
| `VerifyTheorems.NoncesAcceptedOnce` | broker/broker.go:289-304 | no nonce, as bytes, is carried by two accepted calls of a run or twice by one |
| `VerifyTheorems.ExactlyOneAccepted` | broker/broker.go:284-304 | of N finished calls on one envelope with fresh distinct nonces that nobody else uses, and nothing revoked or expired, exactly one is accepted and N - 1 are told of a replay |
| `VerifyTheorems.NonceAccounting` | store/mem.go:96-105 | a nonce is consumed exactly if some call consumed it, other traffic recorded it, or it was there from the start |
| `VerifyTheorems.RevokedSigilIsFinal` | broker/broker.go:270-276 | once a sigil is revoked, a well-signed call that had not begun or not yet looked can only end in sigil revoked and consumes nothing |
| `VerifyTheorems.RevokedCapIsFinal` | broker/broker.go:289-303 | once cap k is revoked, a call that had not looked at it never consumes nonce k or a later one and is never accepted |
| `VerifyTheorems.ConsumesPrefix` | broker/broker.go:258-304 | a returned call consumed the nonces of a prefix of its caps and no other call consumed any of those; with at least one cap, all of them exactly if it was accepted (without caps a refused call has nothing left to consume either) |
| `VerifyTheorems.CountersCountReturns` | broker/broker.go:273-309 | at every moment the allowed counter is the number of nil returns and the denied counter that of sigil- and cap-revoked returns, modulo 2^64 |
| `VerifyTheorems.CheckedWasIssued` | broker/broker.go:260-268 | with a key that verifies only issued messages, every call past the signature stage carries an issued envelope, field by field, up to the signature |
| `Interleaving.NextKeepsInv` | broker/broker.go:260-310 | every step of every call, revocation, tick and other store operation keeps the protocol invariant: results stay justified and consumed nonces have one consumer |
| `Interleaving.RunKeepsInv` | broker/broker.go:260-310 | the invariant holds in every reachable world |
| `Interleaving.RunIsLater` | store/mem.go:83-144 | over any stretch of a run time does not go back, nothing is un-revoked or un-consumed, and no call loses progress |
| `Schedules.SoloIsVerify` | broker/broker.go:260-310 | a call that nothing interrupts takes exactly the steps of the sequential computation, with its result, its store and its consumed nonces |
| `Progress.ReturnsInTime` | broker/broker.go:260-310 | in every interleaving a call has returned once it has taken three steps per cap and four more, and it cannot be accepted with fewer |
| `Crossing.RefusesBothExactly` | broker/broker.go:289-304 | for two clean envelopes of any length with fresh nonces, each acceptable alone, some run in which nobody else touches their nonces refuses both if and only if they cross |
| `Crossing.RefusedThenCrossed` | broker/broker.go:300-303 | whatever else runs, two refused calls stand exactly at caps where their envelopes cross |
| `Crossing.CrossedThenRefused` | broker/broker.go:289-304 | a schedule of the two calls that refuses both, for any crossing |
| `Crossing.OtherwiseInTurn` | broker/broker.go:289-304 | in every run of two calls that does not refuse both, their results and consumed prefixes are those of the sequential computation made twice, in one of the two orders |
| `Crossing.CrossingExists` | broker/broker.go:289-304 | any two caps with different nonces, in opposite order, make envelopes that cross |
| `Crossing.SameEnvelopeNeverCrosses` | broker/broker.go:289-304 | two calls on one envelope are never both refused |
| `Verification.VerifyMeaning` | broker/broker.go:260-310 | acceptance if and only if signature, sigil, envelope and all caps are sound; in every case which nonces were consumed and which cap is to blame |
| `Verification.SecondCallIsReplay` | broker/broker.go:300-303 | a second call on an accepted envelope is refused as a replay at its first cap and consumes nothing |
| `Broker.HankoBroker.VerifyAttestation` | broker/broker.go:260-310 | computes the sequential specification on the store, for any way in which an envelope becomes a map, and moves the right counter and no other |
| `Broker.HankoBroker.VerifyChecked` | broker/broker.go:266-310 | the stages after the signature check, from its answer |
| `Attestation.WithEnvelopeBody` | broker/broker.go:373-385 | with the map that envelopeBody makes, signed bytes, signature check and issuing are those of the theorems |
| `Broker.HankoBroker.CheckCaps` | broker/broker.go:289-304 | the loop over the caps computes its recursive specification from any store |
| `Broker.HankoBroker.CheckCap` | broker/broker.go:290-303 | the three checks of one cap in their order; only a fresh nonce changes the store |
| `Broker.HankoBroker.IssueSigil` | broker/broker.go:142-156 | the issued sigil, a nil metadata map made empty, and the store with it and nothing else changed |
| `Broker.HankoBroker.IssueCap` | broker/broker.go:190-210 | a cap is issued if and only if its sigil is in the store, and a refusal leaves the store alone |
| `Broker.HankoBroker.IssueAttestation` | broker/broker.go:215-235 | the envelope has the sigil id, caps, issue time and expiry it was asked for, version hanko/v0.1 and issuer hanko-broker@obyw.one, and is signed over the canonical bytes of its body without a signature; an error exactly when that body cannot be made |
| `Attestation.IssuedFields` | broker/broker.go:216-223 | the same of every issued envelope: each field is the one given, version and issuer are these literals |
| `Lifecycle.IssuedVerifies` | broker/broker.go:215-310 | for every store and clock, an issued envelope that has travelled as JSON is refused as revoked exactly if the sigil it was issued for is, is expired past the expiry it was issued with, and is accepted if and only if neither holds and all its caps are sound |
| `Lifecycle.IssuedThenRevoked` | broker/broker.go:270-276 | in every interleaving, once the sigil that an envelope was issued for is revoked, a call on it that had not looked yet ends in sigil revoked or not at all and consumes nothing |
| `Lifecycle.SigilLife` | broker/broker.go:142-333 | issue a sigil, bind a cap to it, issue an envelope, verify twice, revoke, verify: the cap is issued, the first verification accepts exactly under the stated conditions, the second is a replay, the last is refused as revoked |
| `Lifecycle.RecordsAreFound` | store/mem.go:42-64 | over every run a sigil or cap is found under its id exactly if one was saved under it, and it is the one last saved |
| `Lifecycle.LogIsComplete` | store/mem.go:137-144 | the log is the list of all revocations made, whole and in order |
| `Broker.HankoBroker.CheckSignature` | broker/broker.go:261-268 | the signature stage under the public key, with the marshalling error apart |
| `Attestation.CheckExactly` | broker/broker.go:261-268 | a body error exactly if some timestamp does not fit RFC 3339; otherwise good exactly if the signature verifies over the signed bytes, and bad exactly if it does not |
| `Attestation.CheckMeaning` | broker/broker.go:261-268 | the same for any way in which an envelope becomes a map |
| `Broker.HankoBroker.BytesToSign` | crypto/ed25519.go:28-35 | the bytes that signing and checking share are the canonical bytes of the body |
| `Broker.HankoBroker.RevokeSigil` | broker/broker.go:323-333 | appends a sigil revocation to log and index |
| `Broker.HankoBroker.RevokeCap` | broker/broker.go:355-364 | appends a cap revocation to log and index |
| `Store.RunMeaning` | store/mem.go:83-144 | over every run from empty the index is the set of logged ids, an id is revoked exactly if some operation revoked it, and a nonce is consumed exactly if some operation recorded it |
| `Store.RunExtends` | store/mem.go:83-144 | the log only grows at its end, and nothing is un-revoked or un-consumed |
| `Store.FirstConsumerWins` | store/mem.go:89-108 | the test-and-set answers yes exactly if no earlier operation recorded the same bytes |
| `Store.MemStore.TryMarkNonce` | store/mem.go:96-105 | atomically tests and records a nonce; yes exactly for the first consumer (RecordNonceStrict has the same body) |
| `Store.MemStore.MarkNonce` | store/mem.go:83-87 | records a nonce unconditionally |
| `Store.MemStore.AddRevocation` | store/mem.go:137-144 | appends to the log and keeps the index equal to the logged ids |
| `Store.MemStore.IsRevoked` | store/mem.go:117-122 | the index lookup answers whether the log has an entry with this id |
| `Store.MemStore.RevocationList` | store/mem.go:124-133 | a copy of the log in memory of its own |
| `Store.OverwriteCopy` | store/mem.go:124-133 | overwriting every cell of a returned list changes neither the store nor later copies |
| `Store.MemStore.PutSigil` | store/mem.go:42-47 | saves a sigil under its id and keeps everything else |
| `Store.MemStore.PutCap` | store/mem.go:59-64 | saves a cap under its id and keeps everything else |
| `Encoding.HexEncodeInjective` | store/mem.go:107-108 | different nonces have different keys |
| `Encoding.HexMeaning` | store/mem.go:107-108 | a key has two hexadecimal digits for every byte of the nonce, the high half first |
| `Canonical.CanonicalRoundTrip` | crypto/ed25519.go:72-119 | parsing the canonical bytes of any value gives the value back, and in the parsed document the keys of every object at any depth ascend strictly by code point |
| `Canonical.CanonicalInjective` | crypto/ed25519.go:58-119 | equal canonical bytes mean equal values |
| `Canonical.CanonicalTreeUnique` | crypto/ed25519.go:72-119 | a document with ascending keys is the only one of its kind for its value |
| `Canonical.CanonicalisationIsIdempotent` | crypto/ed25519.go:58-69 | any canonical document, whoever wrote it, is reproduced byte for byte by reading and canonicalising |
| `Jcs.JcsExactly` | crypto/ed25519.go:50-69 | the canonical text of a value is that of RFC 8785 if and only if no string or key at any depth contains <, >, &, U+2028 or U+2029 and no object has two keys that UTF-16 order swaps |
| `Jcs.PrintCompares` | crypto/ed25519.go:116-118 | as RFC 8785 has it a document is never longer, equally long exactly if it contains none of these characters, and then the same |
| `Utf16.OrdersAgree` | docs/wire-format.md:10 | two strings in code point order are in UTF-16 order if and only if they do not first differ in a character from U+E000 to U+FFFF against one beyond |
| `Utf16.OrdersDiffer` | docs/wire-format.md:10 | U+FFFF and U+10000 are ordered differently |
| `Utf16.UnitsMeaning` | docs/wire-format.md:10 | the UTF-16 units of a character are those of section 2.1 of RFC 2781 |
| `JcsEnvelopes.SignedBytesAreJcs` | crypto/ed25519.go:22-35 | the bytes that are signed are the RFC 8785 form of the body if and only if no version, sigil id, issuer, cap id or scope contains one of these characters |
| `JcsEnvelopes.ExampleIsNotJcs` | crypto/ed25519.go:22-35 | for a cap with the scope a<b they are not |
| `Marshal.MarshalCanonical` | crypto/ed25519.go:72-119 | whatever order the maps are iterated in, at any depth, the buffer ends as the canonical bytes |
| `Marshal.MarshalObject` | crypto/ed25519.go:74-99 | collecting, sorting and writing the members of an object in any iteration order |
| `Marshal.MarshalArray` | crypto/ed25519.go:101-114 | writing the items of an array in order |
| `Marshal.CanonicalJson` | crypto/ed25519.go:58-69 | the round trip through JSON before canonicalising changes nothing and cannot fail |
| `Sorting.CollectSorted` | crypto/ed25519.go:75-79 | collecting a map's keys in any order and sorting them gives the one ascending list of these keys |
| `Sorting.SortForgetsOrder` | crypto/ed25519.go:75-79 | the sorted list depends on the set of keys only |
| `Utf8.ByteOrderIsCodePointOrder` | docs/wire-format.md:10 | comparing strings by their UTF-8 bytes is comparing them by code points |
| `Utf8.DecodeEncode` | docs/wire-format.md:18-23 | UTF-8 encoding is undone by decoding |
| `Utf8.EncodingForms` | docs/wire-format.md:18-23 | the bytes of a character are those of section 3 of RFC 3629 |
| `Json.ParsePrint` | crypto/ed25519.go:58-69 | every printed document, with Go's string escapes, parses to the tree it was printed from |
| `Json.EscapeMeaning` | crypto/ed25519.go:116-118 | the table of escapes, character by character; every other character is written as itself |
| `Encoding.Base64RoundTrip` | docs/wire-format.md:13-14 | standard base64 is undone by decoding |
| `Encoding.Base64Meaning` | docs/wire-format.md:13-14 | four characters and three bytes are the same number in base 64 and base 256; a short last group is filled up with zero bits and = |
| `Encoding.Base64Alphabet` | docs/wire-format.md:13-14 | the alphabet is A-Z, a-z, 0-9, + and / |
| `Rfc3339.TimeReads` | docs/wire-format.md:12 | every timestamp that RFC 3339 can hold is read back exactly, nanoseconds and zone included |
| `TimeForms.TimeTextExactly` | docs/wire-format.md:12 | a text is that of a timestamp if and only if it reads as the timestamp and has the form Go writes, stated on characters: Z exactly for UTC and a numeric offset otherwise, no fraction or one of at most nine digits that does not end in 0 |
| `TimeForms.TimeTextMeaning` | docs/wire-format.md:12 | the characters of a timestamp's text, place by place, are its date, time of day, nanoseconds and zone |
| `TimeForms.CalendarMeaning` | docs/wire-format.md:12 | the calendar day by day: 1970-01-01 is 0, the next date is 86400 seconds later with the month lengths and leap years of the Gregorian calendar, and the clock counts from midnight |
| `TimeForms.NoonIsWritten` | docs/wire-format.md:12 | the documented example: 1780747200 seconds after the epoch in UTC is "2026-06-06T12:00:00Z" |
| `TimeForms.MorningIsWritten` | docs/wire-format.md:12 | an instant with a fraction in another zone is "2026-03-09T07:05:02.5+05:30" |
| `Documents.DocumentRoundTrip` | protocol/types.go:38-58 | the JSON object of an envelope, its caps in order, is read back field by field, null and empty apart |
| `Documents.BodyBinds` | broker/broker.go:371-385 | two documents with the same body differ at most in their signature |
| `Documents.BodyIgnoresSignature` | broker/broker.go:383 | the body is the same whatever the signature is |
| `Attestation.EnvelopeRoundTrip` | protocol/types.go:38-58 | an envelope survives its JSON form exactly, nil and empty slices and time zones included |
| `WireText.EnvelopeTexts` | broker/broker.go:371-385 | the wire form and the signed bytes of every envelope as text, with the member names as literals: the wire form in the order of the struct, the signed bytes with ascending names at both levels and without the signature, times in RFC 3339, bytes in base64 or null |
| `Attestation.EnvelopeJsonExists` | broker/broker.go:375-378 | marshalling fails exactly if some timestamp does not fit RFC 3339 |
| `Attestation.SignedBytesBind` | broker/broker.go:373-385 | envelopes with the same signed bytes agree on every field but the signature, caps and their order included |
| `Attestation.SignedBytesIgnoreSignature` | broker/broker.go:383 | the signature field is not covered by itself |
| `Attestation.IssueSucceeds` | broker/broker.go:215-235 | issuing succeeds exactly if every timestamp fits RFC 3339 |
| `Attestation.IssuedIsGood` | broker/broker.go:225-234 | an issued envelope passes the signature check, also after it has travelled as JSON |
| `Attestation.EnvelopeBodyIgnoresSignature` | broker/broker.go:383 | the map that is signed does not depend on the signature, as `Lifecycle.SigilLife` asks |
| `Attestation.GoodWasIssued` | crypto/ed25519.go:39-48 | with a key that verifies only issued messages, what passes is an issued envelope up to its signature |
| `GoStrings.TextExactly` | broker/broker.go:375-382 | a Go string is the only one with its JSON text if and only if it is valid UTF-8 and does not contain U+FFFD |
| `GoStrings.ValidComesThrough` | broker/broker.go:375-382 | an envelope of valid strings comes through JSON unchanged, field by field |
| `GoStrings.SignedBytesBindExactly` | broker/broker.go:373-385 | over byte strings, the signed bytes of an envelope determine all but the signature if and only if every string in it is valid UTF-8 without U+FFFD |
| `Detector.BruteForceDetector.constructor` | internal/observability/brute_force.go:45-68 | settings that are absent or not positive fall back to 10 failures in 60 seconds |
| `Detector.BruteForceDetector.Compact` | internal/observability/brute_force.go:90-97 | pruning in place, writing into the slice that is being read, keeps exactly the timestamps not before the cutoff, in order |
| `Detector.BruteForceDetector.Keep` | internal/observability/brute_force.go:90-99 | the client's list becomes the pruned one with the new timestamp; every other client's is untouched |
| `Detector.BruteForceDetector.Announce` | internal/observability/brute_force.go:101-124 | alerts exactly if the threshold is reached and the pair was not alerted, and remembers it |
| `Detector.BruteForceDetector.Observe` | internal/observability/brute_force.go:88-124 | a failure under any threshold, window and bucketing does to timestamps, dedup table and alert what its specification says |
| `Detector.BruteForceDetector.RecordFailure` | internal/observability/brute_force.go:84-130 | the whole call under the detector's own settings, with the window multiplied out in 64 bits; an alert reports the client's list, at least the threshold long, and names the window of its first timestamp, b * windowSec <= seconds < (b + 1) * windowSec, mirrored below zero |
| `DetectorRuns.TimesAreKept` | internal/observability/brute_force.go:88-99 | after any failures in any timestamp order a client's list is exactly its timestamps that no later cutoff exceeded, in order |
| `DetectorRuns.WindowIsExact` | internal/observability/brute_force.go:88-99 | in every run with timestamps that do not go back the list is the client's failures in the closed window, if and only if the setting is at most 9223372036 seconds |
| `DetectorRuns.ForgetsTooEarly` | internal/observability/brute_force.go:88-97 | when the product wraps, two failures one window apart refute it |
| `DetectorRuns.WrappedWindowNeverAlerts` | internal/observability/brute_force.go:88-103 | at 9223372037 seconds no run with ordered timestamps ever alerts for a threshold above one |
| `DetectorRuns.AlertKeyInjective` | internal/observability/brute_force.go:109 | the joined key tells client and bucket apart even when client ids contain the separator |
| `DetectorRuns.AlertedMeaning` | internal/observability/brute_force.go:105-113 | the dedup table holds a pair's key exactly if an alert was raised for the pair |
| `DetectorRuns.AlertMeaning` | internal/observability/brute_force.go:101-124 | a failure alerts exactly if the surviving timestamps reach the threshold and no earlier failure alerted for the pair, and the alert reports them |
| `DetectorRuns.ThresholdIsAlerted` | internal/observability/brute_force.go:101-113 | a failure that reaches the threshold leaves its pair alerted |
| `DetectorRuns.AlertsAreUnique` | internal/observability/brute_force.go:105-113 | no pair of client and bucket alerts twice |
| `DetectorRuns.AlertsBounded` | internal/observability/brute_force.go:108-113 | a client's alerts number at most the windows of windowSec seconds that its timestamps span, counted from the epoch outward, so n alerts take more than n - 2 windows; negative seconds included |
| `DetectorRuns.BucketMeaning` | internal/observability/brute_force.go:109 | in every run an alert's bucket is the window, in seconds, of the first failure it reports |
| `DetectorRuns.AlertInSeconds` | internal/observability/brute_force.go:101-124 | with timestamps since the epoch, a failure alerts if and only if its surviving timestamps reach the threshold and no earlier alert of the client reports a first failure in the same window of the clock |
| `DetectorRuns.AlertExactly` | internal/observability/brute_force.go:88-124 | for ordered timestamps and a setting up to 9223372036 seconds the same is said of the closed window itself, and the alert is given in full |
| `DetectorRuns.AlertsAgain` | internal/observability/brute_force.go:105-113 | a client that reaches the threshold is alerted whenever its first timestamp is windowSec seconds or more after that of each of its earlier alerts |
| `Publisher.NatsPublisher.Publish` | internal/observability/nats_publisher.go:155-171 | an unsent event joins the queue, or is counted as dropped, in 64 bits, when the ring is full |
| `Publisher.NatsPublisher.Store` | internal/observability/nats_publisher.go:157-160 | writing at the head appends to the queue and keeps head = (tail + count) mod capacity |
| `Publisher.NatsPublisher.Pop` | internal/observability/nats_publisher.go:228-230 | reading at the tail takes the oldest event and keeps the same invariant |
| `Publisher.NatsPublisher.Flush` | internal/observability/nats_publisher.go:216-239 | delivers, loses and leaves exactly what the drain of a queue does |
| `Publisher.DrainMeaning` | internal/observability/nats_publisher.go:216-239 | a drain delivers a prefix in order, loses at most the next event, and stops early only on a failed publish or a lost connection |
| `Publisher.OutageDropsExcess` | internal/observability/nats_publisher.go:155-171 | n publishes from empty while nothing can be sent keep the first 1024 in order and drop max(0, n - 1024), as a 64-bit counter shows it |
| `Publisher.RefusedOnlyWhenFull` | internal/observability/nats_publisher.go:155-171 | in every interleaving an event at the buffer stage is refused exactly if 1024 wait, and otherwise waits behind them |
| `Publisher.NothingVanishes` | internal/observability/nats_publisher.go:155-171 | with publishers and the drain interleaved, events at the buffer stage are settled in order, in flight, waiting or refused, and the drop counter shows the refused ones it was told of, in 64 bits |
| `Reload.ConfigReloader.ApplyReload` | internal/observability/config_reload.go:104-157 | all or nothing: applied exactly if every key names a setting and every value has its type, and then setting by setting from the key of its name; otherwise unchanged, with a reason that names a key at fault; the reported keys are the decoded ones in order, for a malformed payload those decoded before the error |
| `Reload.ConfigReloader.BuildCandidate` | internal/observability/config_reload.go:124-133 | applying the keys in any order succeeds exactly for an acceptable payload, with the same result |
| `Reload.ApplyKey` | internal/observability/config_reload.go:199-249 | sets the named field and no other, or gives the type error |
| `Reload.ReadStrings` | internal/observability/config_reload.go:236-243 | the loop reads an array of strings as its specification says |
| `Reload.StringsMeaning` | internal/observability/config_reload.go:236-243 | which is Some exactly if every element is a string, and then element by element |
| `Reload.AcceptableExactly` | internal/observability/config_reload.go:199-249 | a payload is acceptable exactly if each key is one of the six settings and its value has that setting's type |
| `Reload.AppliedUpdates` | internal/observability/config_reload.go:199-249 | an acceptable payload sets each setting from the key of its own name, floats cut toward zero, and leaves the others |
| `Reload.ReasonTexts` | internal/observability/config_reload.go:115-122 | the texts of the reasons |
| `Reload.AppliedUnique` | internal/observability/config_reload.go:104-157 | a payload leaves only one configuration possible, so iteration order cannot matter |
| `ReloadRuns.ReloadAll` | internal/observability/config_reload.go:104-157 | requests one after the other take the reloader through exactly the specified configurations |
| `ReloadRuns.LastAcceptedWins` | internal/observability/config_reload.go:104-157 | every field holds the value of the last accepted request that names it, or its initial value |
| `ReloadOverlap.EveryCommitIsDerived` | internal/observability/config_reload.go:104-138 | however requests overlap, every configuration after the first comes from one accepted request of the run, begun, snapshot and committed by three actions of that request in this order, and is the configuration current at the snapshot with its payload applied |
| `ReloadOverlap.CommitsAreDistinct` | internal/observability/config_reload.go:104-138 | different commits come from different requests, in the order of their commit actions |
| `ReloadOverlap.SnapshotWasCurrent` | internal/observability/config_reload.go:124-127 | the history at the snapshot is the part of the history up to the configuration that was read |
| `ReloadOverlap.SequentialExactly` | internal/observability/config_reload.go:124-138 | the configurations of a run are those of its committed payloads applied one after the other if and only if each snapshot agrees with the configuration it replaces on every key that its payload does not name |
| `ReloadOverlap.UndisturbedIsSequential` | internal/observability/config_reload.go:124-138 | which is so when no commit falls between a request's snapshot and its own commit |
| `ReloadOverlap.LastCommitWins` | internal/observability/config_reload.go:124-138 | then every field holds the value of the last committed request that names it, or its initial value |
| `ReloadOverlap.OverlapLosesUpdate` | internal/observability/config_reload.go:124-138 | any two accepted payloads can overlap so that what only the first names is lost |
| `Cdc.TupleToMap` | internal/observability/cdc.go:235-254 | the row of a tuple, stopping at the known columns |
| `Cdc.RowMeaning` | internal/observability/cdc.go:240-253 | a name has a value exactly if some text or null column gives one, and then that of the last such column |
| `Cdc.RowIsRow` | internal/observability/cdc.go:235-254 | the row of a tuple holds exactly what the tuple says: for each name the text, or nothing for a null, of the last column that carries one |
| `Cdc.RowUnique` | internal/observability/cdc.go:235-254 | and it is the only such row |
| `Cdc.DiffColumns` | internal/observability/cdc.go:143-161 | exactly the columns that differ or exist on one side only, strictly ascending, in any iteration order |
| `Cdc.HashFields` | internal/observability/cdc.go:124-133 | every value replaced by its hash, nil kept |
| `Cdc.PublishChange` | internal/observability/cdc.go:89-110 | the event of a change is its redaction |
| `Cdc.DiffFromHashes` | internal/observability/cdc.go:141-161 | the diff can be computed from the hashes exactly if no changed column collides |
| `Cdc.EventHidesValues` | internal/observability/cdc.go:123-139 | but for its row id an event is a function of column names and hashes, exactly if no changed column of an update collides |
| `Cdc.CdcDecoder.Handle` | internal/observability/cdc.go:183-231 | decodes a row change with its registered relation, or none: new row, old row and row id are what the message's own tuples say, each in its place |
| `Cdc.DecodeMeaning` | internal/observability/cdc.go:183-231 | the same of the specification: an update's row id is that of the new tuple, and of the old one when the new one says none or an empty one |
| `Cdc.EventMeaning` | internal/observability/cdc.go:89-110 | on the tuples of the message: the hashed row has a name exactly if the new tuple (for a delete the old one) says something of it, with the hash of what it says; the diff has a name exactly if the two tuples differ on it; row id, operation and tombstone |
| `Cdc.CdcDecoder.Dispatch` | internal/observability/cdc.go:352-380 | registers a relation, or publishes the change if it is of the audited table |
| `Cdc.LatestMeaning` | internal/observability/cdc.go:176-179 | the registered relation is the last one announced under its id, none only if there was none |
| `Cdc.Replicate` | internal/observability/cdc.go:352-380 | over every stream, event by event: an event exactly for a change governed by a latest announcement of hanko_audit, and it reports the message's own tuples under that announcement |
| `Jwks.IdpJwksCache.FindKey` | broker/oidc.go:160-169 | the first key with the kid decides |
| `Jwks.LookupMeaning` | broker/oidc.go:160-169 | a lookup gives key material exactly if the first key with the kid is an RSA key whose material can be read, and no such kid exactly if there is none |
| `Jwks.IdpJwksCache.KeyByKid` | broker/oidc.go:143-170 | asks when there is no entry or it is too old, keeps the old entry on an error, and answers from the entry it ends with |
| `Jwks.Serve` | broker/oidc.go:143-170 | over every run each answer is looked up in the last document brought for its URL |
| `Jwks.SourceAdvances` | broker/oidc.go:148-158 | an entry is only ever replaced by a later one |
| `Jwks.FetchFailedMeaning` | broker/oidc.go:150-153 | a fetch error surfaces exactly if no lookup for the URL was ever answered with a document |
| `Jwks.YoungIsKept` | broker/oidc.go:148-158 | a lookup is answered from the document it finds, without asking, while that is within its time to live, and when the provider fails; otherwise from the one the provider sends, which is kept; other URLs are untouched |
| `Jwks.OldOnlyOnError` | broker/oidc.go:148-158 | a document older than the time to live is used only if this lookup asked and got none, or brought it itself under a negative time to live |
| `Oidc.LoadPolicy` | broker/oidc.go:87-91 | the index holds for every key the last row with it |
| `Oidc.LookupExactness` | broker/oidc.go:94-100 | lookup gives the last row for exactly this identity if and only if every row of another identity with the same joined key is followed by one for this identity |
| `Oidc.LookupExactForPlainIssuers` | broker/oidc.go:94-100 | which is so when no issuer contains the separator |
| `Oidc.SeparatorConfusesIdentities` | broker/oidc.go:94-100 | and not so otherwise: a row answers for another identity |
| `Oidc.ScopesSubset` | broker/oidc.go:569-580 | true exactly if every requested scope is allowed |
| `Oidc.ComputeTtl` | broker/oidc.go:419-430 | the assignments to ttl compute its specification, products wrapping at 64 bits |
| `Oidc.TtlBounds` | broker/oidc.go:419-430 | at most five minutes for all inputs; positive exactly if no product wraps to zero or below |
| `Oidc.TtlExactness` | broker/oidc.go:419-430 | equals the minimum of ceiling, policy or default, and positive request, if and only if no product wraps below it |
| `Oidc.TtlIsMinimum` | broker/oidc.go:419-430 | which is so, and positive, when neither seconds value exceeds 9223372036 |
| `Oidc.TtlLastsRightly` | broker/oidc.go:419-430 | with the numbers as literals: the smallest of five minutes, the row's maximum or 30 seconds, and a positive request, exactly if no product wraps below it; never above five minutes or a positive request |
| `Oidc.TtlWraps` | broker/oidc.go:420-422 | one second more in the policy gives a negative time to live |
| `GoInt.WrapMeaning` | broker/oidc.go:419-430 | the product of a time.Duration is the one 64-bit number that differs from the true product by a multiple of 2^64 |
| `Oidc.JwtLifetimeBounded` | broker/oidc.go:519-529 | exp - iat, both cut to seconds, is at most 300 when the clock does not go back |
| `Oidc.GrantMeaning` | broker/oidc.go:357-434 | unless a row shadows the identity, a request is granted exactly if it is well formed and the identity's last row is enabled and allows all its scopes; for that row's sigil, for the time that row and request give, with a scope string that splits back exactly if no scope contains a space; each refusal has exactly the first reason there is |
| `Oidc.GrantForPlainIssuers` | broker/oidc.go:357-434 | the same whenever no issuer contains the separator |
| `Oidc.OidcBootstrap.Handle` | broker/oidc.go:357-441 | every refusal in its order without touching the store; a grant mints exactly the decided cap, which outlives neither five minutes nor a positive request |
| `Subjects.SubjectSplits` | internal/observability/subject.go:97-103 | a wire subject splits into its seven tokens exactly if no part contains a dot |
| `Subjects.LastToken` | internal/observability/config_reload.go:279-286 | what follows the last dot, or everything |
| `Subjects.LastTokenIsCorrId` | internal/observability/config_reload.go:277-286 | it is the correlation id exactly if that contains no dot |

## Left out

- Postgres: store/postgres.go, store/pgstore and the migrations, whose behaviour is that of the database.
- HTTP, the command line, metrics, audit files and the published event records around the operations.
- cve/watcher.go, broker/scope_registry.go and `VerifyCapScope`: single-branch checks that would only add easy members.
- Ed25519, SHA-256, RSA key parsing, JWT parsing, ids and nonces: parameters.
- Strings that are not valid UTF-8, outside `GoStrings`: elsewhere a Go string is a sequence of Unicode scalar values.
- JSON numbers other than integers that a double holds exactly: envelopes contain none. The parser reads compact text, as the writers produce it, and no escaped surrogate pairs, which they do not produce.
- Time zone offsets with seconds, which RFC 3339 cannot express, and the overflow of `time.Time` itself.
- Records held by pointer in the store: sigils and caps are values, so a caller that changes an issued record in place is not modelled. The plain reads GetCap, NonceUsed and DropCount are left out.
- The subject constructors, which only fill in the domain and the entity.
- NATS connections, reconnection and deadlines: whether an attempt got through is a parameter. A publish that times out and still arrives is not modelled, nor is the order between direct and buffered events.
- TOML and pgoutput parsing: the model starts from the decoded map and the decoded messages.
- Floats in a reload that do not fit 64 bits, whose conversion Go leaves to the platform.
- Store.MemStore.TryMarkNonce: stands for both TryRecordNonce and RecordNonceStrict (store/interface.go:49-58), which have the same body on the same map.
- Broker.HankoBroker.IssueSigil: does not model errors of the store, because the in-memory store has none.
