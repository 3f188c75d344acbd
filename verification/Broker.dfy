/**
 The broker as one caller sees it, with no other call in between. Random ids and
 nonces, clock readings and the two halves of the key pair are parameters, and so
 is `body`, the way an envelope becomes a map; in Go it is EnvelopeBody.
 */
module Broker {
  import opened Protocol
  import opened Store
  import opened Canonical
  import opened Marshal
  import opened Attestation
  import opened Verification
  import opened Interleaving

  class HankoBroker {
    const store: MemStore
    const body: Envelope -> Option<Value>
    const sign: Bytes -> Bytes
    const verify: (Bytes, Bytes) -> bool
    var allowed: nat
    var denied: nat

    ghost predicate Valid()
      reads this, store
    {
      store.Valid()
    }

    constructor (store: MemStore, body: Envelope -> Option<Value>, sign: Bytes -> Bytes, verify: (Bytes, Bytes) -> bool)
      requires store.Valid()
      ensures this.store == store && this.body == body && this.sign == sign && this.verify == verify
      ensures Valid() && allowed == 0 && denied == 0
    {
      this.store, this.body, this.sign, this.verify := store, body, sign, verify;
      allowed, denied := 0, 0;
    }

    /** A nil metadata map becomes an empty one. */
    method IssueSigil(id: string, subject: string, publicKey: Slice<Byte>, expiresAt: Option<Timestamp>,
                      metadata: Option<map<string, string>>, now: Timestamp)
      returns (s: Sigil)
      requires Valid()
      modifies store
      ensures Valid() && store.Value() == Apply(old(store.Value()), SaveSigil(s))
      ensures s == Sigil(id, subject, publicKey, now, expiresAt, if metadata.None? then map[] else metadata.value)
    {
      var meta := map[];
      if metadata.Some? {
        meta := metadata.value;
      }
      s := Sigil(id, subject, publicKey, now, expiresAt, meta);
      store.PutSigil(s);
    }

    /** A cap can only be bound to a sigil that is in the store. */
    method IssueCap(id: string, nonce: Bytes, sigilId: string, scope: string, now: Timestamp, expiresAt: Timestamp)
      returns (r: Option<CapabilityToken>)
      requires Valid()
      modifies store
      ensures Valid()
      ensures sigilId in old(store.sigils) <==> r.Some?
      ensures r.Some? ==>
                && r.value == CapabilityToken(id, sigilId, scope, now, expiresAt, Of(nonce))
                && store.Value() == Apply(old(store.Value()), SaveCap(r.value))
      ensures r.None? ==> store.Value() == old(store.Value())
    {
      var s := store.GetSigil(sigilId);
      if s.None? {
        return None;
      }
      var c := CapabilityToken(id, sigilId, scope, now, expiresAt, Of(nonce));
      store.PutCap(c);
      return Some(c);
    }

    /** The bytes a signature is over, None when marshalling fails. */
    method BytesToSign(env: Envelope) returns (m: Option<Bytes>)
      ensures m == SignedBy(body, env)
    {
      var v := body(env);
      if v.None? {
        return None;
      }
      m := CanonicalJson(v.value);
    }

    /** The envelope as asked for, signed over the canonical bytes of its body without a signature. */
    method IssueAttestation(sigilId: string, caps: Slice<CapabilityToken>, now: Timestamp, expiresAt: Timestamp)
      returns (r: Option<Envelope>)
      ensures r == IssueBy(body, sign, sigilId, caps, now, expiresAt)
      ensures var unsigned := Envelope("hanko/v0.1", sigilId, caps, "hanko-broker@obyw.one", now, expiresAt, NilSlice);
              && (r.None? <==> body(unsigned).None?)
              && (r.Some? ==> r.value == unsigned.(signature := Of(sign(CanonicalBytes(body(unsigned).value)))))
    {
      var env := Envelope(VERSION, sigilId, caps, ISSUER, now, expiresAt, NilSlice);
      var m := BytesToSign(env);
      if m.None? {
        return None;
      }
      return Some(env.(signature := Of(sign(m.value))));
    }

    method CheckSignature(env: Envelope) returns (c: SignatureCheck)
      ensures c == CheckBy(body, verify)(env)
    {
      var m := BytesToSign(env);
      if m.None? {
        return Unencodable;
      }
      return if verify(m.value, env.signature.Items()) then Good else Bad;
    }

    /** One cap: the reason to stop, if any; otherwise its nonce is consumed. */
    method CheckCap(cap: CapabilityToken, now: int) returns (stop: Option<VerifyResult>)
      requires Valid()
      modifies store
      ensures Valid()
      ensures var s := old(store.Value());
              if cap.id in s.revoked then stop == Some(CapRevoked) && store.Value() == s
              else if now > cap.expiresAt.nanos then stop == Some(CapExpired) && store.Value() == s
              else if NonceKey(cap.nonce) in s.nonces then stop == Some(ReplayAttack) && store.Value() == s
              else stop == None && store.Value() == Apply(s, TryRecordNonce(cap.nonce))
    {
      var revoked := IsRevoked(cap.id);
      if revoked {
        return Some(CapRevoked);
      }
      if now > cap.expiresAt.nanos {
        return Some(CapExpired);
      }
      var first := store.TryMarkNonce(cap.nonce);
      return if first then None else Some(ReplayAttack);
    }

    method CheckCaps(caps: seq<CapabilityToken>, now: nat -> int) returns (r: VerifyResult)
      requires Valid()
      modifies this, store
      ensures Valid() && allowed == old(allowed) && r in {Accepted, CapRevoked, CapExpired, ReplayAttack}
      ensures var o := CapLoop(old(store.Value()), caps, now, 0);
              r == o.result && store.Value() == o.store
      ensures denied == if r == CapRevoked then (old(denied) + 1) % COUNTER else old(denied)
    {
      for i := 0 to |caps|
        invariant Valid() && allowed == old(allowed) && denied == old(denied)
        invariant CapLoop(store.Value(), caps, now, i) == CapLoop(old(store.Value()), caps, now, 0)
      {
        var stop := CheckCap(caps[i], now(i + 1));
        if stop.Some? {
          if stop.value == CapRevoked {
            denied := (denied + 1) % COUNTER;
          }
          return stop.value;
        }
      }
      return Accepted;
    }

    /** The stages after the signature check, whose answer is given. */
    method VerifyChecked(env: Envelope, now: nat -> int, c: SignatureCheck) returns (r: VerifyResult)
      requires Valid()
      modifies this, store
      ensures Valid()
      ensures var o := VerifyFrom(c, old(store.Value()), env, now);
              r == o.result && store.Value() == o.store
      ensures allowed == if r == Accepted then (old(allowed) + 1) % COUNTER else old(allowed)
      ensures denied == if r == SigilRevoked || r == CapRevoked then (old(denied) + 1) % COUNTER else old(denied)
    {
      if c != Good {
        return if c == Bad then SignatureInvalid else BodyError;
      }
      var revoked := IsRevoked(env.sigilId);
      if revoked {
        denied := (denied + 1) % COUNTER;
        return SigilRevoked;
      }
      if now(0) > env.expiresAt.nanos {
        return CapExpired;
      }
      r := CheckCaps(env.caps.Items(), now);
      if r == Accepted {
        allowed := (allowed + 1) % COUNTER;
      }
    }

    /** Computes Verify on the store it finds; only revoked and accepted outcomes are counted. */
    method VerifyAttestation(env: Envelope, now: nat -> int) returns (r: VerifyResult)
      requires Valid()
      modifies this, store
      ensures Valid()
      ensures var o := Verify(CheckBy(body, verify), old(store.Value()), env, now);
              r == o.result && store.Value() == o.store
      ensures allowed == if r == Accepted then (old(allowed) + 1) % COUNTER else old(allowed)
      ensures denied == if r == SigilRevoked || r == CapRevoked then (old(denied) + 1) % COUNTER else old(denied)
    {
      var c := CheckSignature(env);
      r := VerifyChecked(env, now, c);
    }

    method IsRevoked(id: string) returns (revoked: bool)
      requires Valid()
      ensures revoked <==> id in store.Value().revoked
    {
      revoked := store.IsRevoked(id);
      assert id in store.Value().revoked <==> exists i :: 0 <= i < |store.Value().log| && store.Value().log[i].id == id;
    }

    method RevokeSigil(id: string, reason: string, revokedBy: string, now: Timestamp)
      requires Valid()
      modifies store
      ensures Valid()
      ensures store.Value() == Apply(old(store.Value()), Revoke(RevocationEntry(id, "sigil", reason, now, revokedBy)))
    {
      store.AddRevocation(RevocationEntry(id, "sigil", reason, now, revokedBy));
    }

    method RevokeCap(id: string, reason: string, revokedBy: string, now: Timestamp)
      requires Valid()
      modifies store
      ensures Valid()
      ensures store.Value() == Apply(old(store.Value()), Revoke(RevocationEntry(id, "cap", reason, now, revokedBy)))
    {
      store.AddRevocation(RevocationEntry(id, "cap", reason, now, revokedBy));
    }
  }
}
