/** What the operations of the broker do one after the other: issuing, verifying, revoking. */
module Lifecycle {
  import opened Protocol
  import opened Store
  import opened Attestation
  import opened Verification
  import opened Interleaving
  import opened VerifyTheorems
  import opened Broker

  // ----- Records are found again -----

  /** The position of the last of the first n operations that saves a sigil under this id, -1 if none does. */
  function LastSigil(ops: seq<StoreOp>, n: nat, id: string): (i: int)
    requires n <= |ops|
    ensures -1 <= i < n && (i >= 0 ==> ops[i].SaveSigil? && ops[i].sigil.id == id)
    ensures forall j :: i < j < n && ops[j].SaveSigil? ==> ops[j].sigil.id != id
  {
    if n == 0 then -1
    else if ops[n - 1].SaveSigil? && ops[n - 1].sigil.id == id then n - 1
    else LastSigil(ops, n - 1, id)
  }

  function LastCap(ops: seq<StoreOp>, n: nat, id: string): (i: int)
    requires n <= |ops|
    ensures -1 <= i < n && (i >= 0 ==> ops[i].SaveCap? && ops[i].cap.id == id)
    ensures forall j :: i < j < n && ops[j].SaveCap? ==> ops[j].cap.id != id
  {
    if n == 0 then -1
    else if ops[n - 1].SaveCap? && ops[n - 1].cap.id == id then n - 1
    else LastCap(ops, n - 1, id)
  }

  /** Over every run: under an id the store holds the record last saved under it, and no other operation touches it. */
  lemma {:induction false} RecordsAreFound(ops: seq<StoreOp>, n: nat, id: string)
    requires n <= |ops|
    ensures var i := LastSigil(ops, n, id);
            && (id in After(EMPTY, ops, n).sigils <==> i >= 0)
            && (i >= 0 ==> After(EMPTY, ops, n).sigils[id] == ops[i].sigil)
    ensures var i := LastCap(ops, n, id);
            && (id in After(EMPTY, ops, n).caps <==> i >= 0)
            && (i >= 0 ==> After(EMPTY, ops, n).caps[id] == ops[i].cap)
  {
    if n > 0 {
      RecordsAreFound(ops, n - 1, id);
    }
  }

  /** The entries of the revocations among the first n operations, in order. */
  function Revocations(ops: seq<StoreOp>, n: nat): seq<RevocationEntry>
    requires n <= |ops|
  {
    if n == 0 then []
    else Revocations(ops, n - 1) + if ops[n - 1].Revoke? then [ops[n - 1].entry] else []
  }

  /** The log is the list of all revocations ever made, whole and in order. */
  lemma {:induction false} LogIsComplete(ops: seq<StoreOp>, n: nat)
    requires n <= |ops|
    ensures After(EMPTY, ops, n).log == Revocations(ops, n)
  {
    if n > 0 {
      LogIsComplete(ops, n - 1);
    }
  }

  // ----- What becomes of an issued envelope -----

  /**
   For any store and clock, an issued envelope that has travelled as JSON is
   refused as revoked exactly if the sigil it was issued for is, then as expired
   exactly if the clock is past the expiry it was issued with, and is accepted
   exactly if all its caps are sound besides, whose nonces are then consumed.
   */
  lemma IssuedVerifies(sign: Bytes -> Bytes, verify: (Bytes, Bytes) -> bool, sigilId: string,
                       caps: Slice<CapabilityToken>, issuedAt: Timestamp, expiresAt: Timestamp,
                       s: StoreState, now: nat -> int)
    requires forall m :: verify(m, sign(m))
    requires Issue(sign, sigilId, caps, issuedAt, expiresAt).Some?
    ensures var json := EnvelopeJson(Issue(sign, sigilId, caps, issuedAt, expiresAt).value);
            && json.Some? && ReadEnvelope(json.value).Some?
            && var o := Verify(CheckWith(verify), s, ReadEnvelope(json.value).value, now);
               var tokens := caps.Items();
               && (sigilId in s.revoked <==> o.result == SigilRevoked)
               && (sigilId in s.revoked ==> o.store == s)
               && (sigilId !in s.revoked && now(0) > expiresAt.nanos ==> o.result == CapExpired && o.store == s)
               && (o.result == Accepted <==>
                     && sigilId !in s.revoked && now(0) <= expiresAt.nanos
                     && forall j :: 0 <= j < |tokens| ==> Sound(s, tokens, now, j))
               && (o.result == Accepted ==> o.store == s.(nonces := s.nonces + Keys(tokens, |tokens|)))
  {
    var env := Issue(sign, sigilId, caps, issuedAt, expiresAt).value;
    IssuedFields(sign, sigilId, caps, issuedAt, expiresAt);
    IssuedIsGood(sign, verify, sigilId, caps, issuedAt, expiresAt);
    EnvelopeRoundTrip(env);
    VerifyMeaning(CheckWith(verify), s, env, now);
    assert s.(nonces := s.nonces + Keys(caps.Items(), 0)) == s;
  }

  /**
   And in every interleaving: once the sigil that an envelope was issued for is
   revoked, a call on the envelope that had not looked yet is never accepted and
   consumes nothing.
   */
  lemma IssuedThenRevoked(sign: Bytes -> Bytes, verify: (Bytes, Bytes) -> bool, sigilId: string,
                          caps: Slice<CapabilityToken>, issuedAt: Timestamp, expiresAt: Timestamp,
                          start: World, acts: seq<Action>, m: nat, n: nat, id: nat)
    requires (forall msg :: verify(msg, sign(msg))) && Issue(sign, sigilId, caps, issuedAt, expiresAt).Some?
    requires Initial(start) && m <= n <= |acts|
    requires var v := At(CheckWith(verify), start, acts, m); sigilId in v.store.revoked && BeforeSigilCheck(v, id)
    requires var w := At(CheckWith(verify), start, acts, n);
             id in w.calls && w.calls[id].env == Issue(sign, sigilId, caps, issuedAt, expiresAt).value
    ensures var call := At(CheckWith(verify), start, acts, n).calls[id];
            call.next == 0 && (call.pc.Returned? ==> call.pc == Returned(SigilRevoked))
  {
    var env := Issue(sign, sigilId, caps, issuedAt, expiresAt).value;
    IssuedFields(sign, sigilId, caps, issuedAt, expiresAt);
    IssuedIsGood(sign, verify, sigilId, caps, issuedAt, expiresAt);
    EnvelopeRoundTrip(env);
    RevokedSigilIsFinal(CheckWith(verify), start, acts, m, n, id);
  }

  // ----- The life of a sigil -----

  /** One cap in one envelope, before anything else has happened: it is accepted exactly if all this holds. */
  ghost predicate Acceptable(s: StoreState, sigilId: string, expiresAt: Timestamp, cap: CapabilityToken, now: nat -> int) {
    && sigilId !in s.revoked && now(0) <= expiresAt.nanos
    && cap.id !in s.revoked && now(1) <= cap.expiresAt.nanos && NonceKey(cap.nonce) !in s.nonces
  }

  lemma OneCap(check: Envelope -> SignatureCheck, s: StoreState, env: Envelope, cap: CapabilityToken, now: nat -> int)
    requires check(env) == Good && env.caps == Of([cap])
    ensures var o := Verify(check, s, env, now);
            && (o.result == Accepted <==> Acceptable(s, env.sigilId, env.expiresAt, cap, now))
            && (o.result == Accepted ==> NonceKey(cap.nonce) in o.store.nonces)
            && o.store.revoked == s.revoked
  {
    var caps := env.caps.Items();
    VerifyMeaning(check, s, env, now);
    assert Keys(caps, 0) == {};
    assert Acceptable(s, env.sigilId, env.expiresAt, cap, now) <==>
           env.sigilId !in s.revoked && now(0) <= env.expiresAt.nanos && Sound(s, caps, now, 0);
    assert NonceKey(caps[0].nonce) in Keys(caps, 1);
  }

  /** A sigil, a cap bound to it and an envelope that carries the cap. */
  method IssueAll(broker: HankoBroker, sigilId: string, subject: string, capId: string, nonce: Bytes, scope: string,
                  at: Timestamp, capExpires: Timestamp, expiresAt: Timestamp)
    returns (cap: CapabilityToken, env: Option<Envelope>)
    requires broker.Valid() && IgnoresSignature(broker.body) && forall m :: broker.verify(m, broker.sign(m))
    modifies broker.store
    ensures broker.Valid() && cap == CapabilityToken(capId, sigilId, scope, at, capExpires, Of(nonce))
    ensures broker.store.Value().revoked == old(broker.store.Value()).revoked
    ensures broker.store.Value().nonces == old(broker.store.Value()).nonces
    ensures env.Some? <==>
            broker.body(Envelope("hanko/v0.1", sigilId, Of([cap]), "hanko-broker@obyw.one", at, expiresAt, NilSlice)).Some?
    ensures env.Some? ==>
              && env.value.sigilId == sigilId && env.value.caps == Of([cap]) && env.value.expiresAt == expiresAt
              && CheckBy(broker.body, broker.verify)(env.value) == Good
  {
    var sigil := broker.IssueSigil(sigilId, subject, NilSlice, None, None, at);
    var issued := broker.IssueCap(capId, nonce, sigilId, scope, at, capExpires);
    cap := issued.value;
    env := broker.IssueAttestation(sigilId, Of([cap]), at, expiresAt);
    if env.Some? {
      IssuedByIsGood(broker.body, broker.sign, broker.verify, sigilId, Of([cap]), at, expiresAt);
    }
  }

  /** Verifying a well-signed envelope twice, revoking its sigil and verifying once more. */
  method UseUp(broker: HankoBroker, env: Envelope, cap: CapabilityToken, at: Timestamp, now: nat -> int,
               later: nat -> int, last: nat -> int)
    returns (first: VerifyResult, second: VerifyResult, third: VerifyResult)
    requires broker.Valid() && CheckBy(broker.body, broker.verify)(env) == Good && env.caps == Of([cap])
    modifies broker, broker.store
    ensures first == Accepted <==> Acceptable(old(broker.store.Value()), env.sigilId, env.expiresAt, cap, now)
    ensures first == Accepted && later(0) <= env.expiresAt.nanos && later(1) <= cap.expiresAt.nanos ==> second == ReplayAttack
    ensures third == SigilRevoked
  {
    ghost var check, s := CheckBy(broker.body, broker.verify), broker.store.Value();
    OneCap(check, s, env, cap, now);
    first := broker.VerifyAttestation(env, now);
    second := broker.VerifyAttestation(env, later);
    if first == Accepted && later(0) <= env.expiresAt.nanos && later(1) <= cap.expiresAt.nanos {
      SecondCallIsReplay(check, s, env, now, later);
    }
    broker.RevokeSigil(env.sigilId, "", "", at);
    VerifyMeaning(check, broker.store.Value(), env, last);
    third := broker.VerifyAttestation(env, last);
  }

  /**
   A sigil is issued, a cap bound to it, and an envelope issued with the cap. Both
   succeed. The envelope is accepted exactly if nothing was revoked, nothing is
   past the expiry given and the nonce is fresh; a second time it is a replay; and
   once the sigil is revoked it is refused as revoked, whatever the clock says.
   */
  method SigilLife(broker: HankoBroker, sigilId: string, subject: string, capId: string, nonce: Bytes, scope: string,
                   at: Timestamp, capExpires: Timestamp, expiresAt: Timestamp, now: nat -> int, later: nat -> int,
                   last: nat -> int)
    returns (cap: CapabilityToken, env: Option<Envelope>, first: VerifyResult, second: VerifyResult, third: VerifyResult)
    requires broker.Valid() && IgnoresSignature(broker.body) && forall m :: broker.verify(m, broker.sign(m))
    modifies broker, broker.store
    ensures cap == CapabilityToken(capId, sigilId, scope, at, capExpires, Of(nonce))
    ensures env.Some? <==>
            broker.body(Envelope("hanko/v0.1", sigilId, Of([cap]), "hanko-broker@obyw.one", at, expiresAt, NilSlice)).Some?
    ensures env.Some? ==>
              && (first == Accepted <==>
                    && sigilId !in old(broker.store.revokedIds) && capId !in old(broker.store.revokedIds)
                    && now(0) <= expiresAt.nanos && now(1) <= capExpires.nanos
                    && NonceKey(Of(nonce)) !in old(broker.store.nonces))
              && (first == Accepted && later(0) <= expiresAt.nanos && later(1) <= capExpires.nanos ==>
                    second == ReplayAttack)
              && third == SigilRevoked
  {
    cap, env := IssueAll(broker, sigilId, subject, capId, nonce, scope, at, capExpires, expiresAt);
    first, second, third := BodyError, BodyError, BodyError;
    if env.Some? {
      first, second, third := UseUp(broker, env.value, cap, at, now, later, last);
    }
  }
}
