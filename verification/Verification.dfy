/**
 VerifyAttestation as one uninterrupted computation on the store's value. The
 signature stage is the parameter `check`; `now(0)` is the clock reading for the
 envelope and `now(i + 1)` the one for cap i.
 */
module Verification {
  import opened Protocol
  import opened Store

  /** The store afterwards, the error returned, and how many nonces this call consumed. */
  datatype Outcome = Outcome(store: StoreState, result: VerifyResult, used: nat)

  function CapLoop(s: StoreState, caps: seq<CapabilityToken>, now: nat -> int, i: nat): Outcome
    requires i <= |caps|
    decreases |caps| - i
  {
    if i == |caps| then Outcome(s, Accepted, i)
    else if caps[i].id in s.revoked then Outcome(s, CapRevoked, i)
    else if now(i + 1) > caps[i].expiresAt.nanos then Outcome(s, CapExpired, i)
    else if NonceKey(caps[i].nonce) in s.nonces then Outcome(s, ReplayAttack, i)
    else CapLoop(Apply(s, TryRecordNonce(caps[i].nonce)), caps, now, i + 1)
  }

  /** What follows from the answer of the signature stage. */
  function VerifyFrom(c: SignatureCheck, s: StoreState, env: Envelope, now: nat -> int): Outcome {
    match c
    case Unencodable => Outcome(s, BodyError, 0)
    case Bad => Outcome(s, SignatureInvalid, 0)
    case Good =>
      if env.sigilId in s.revoked then Outcome(s, SigilRevoked, 0)
      else if now(0) > env.expiresAt.nanos then Outcome(s, CapExpired, 0)
      else CapLoop(s, env.caps.Items(), now, 0)
  }

  function Verify(check: Envelope -> SignatureCheck, s: StoreState, env: Envelope, now: nat -> int): Outcome {
    VerifyFrom(check(env), s, env, now)
  }

  /** The keys of the first n nonces. */
  function Keys(caps: seq<CapabilityToken>, n: nat): set<string>
    requires n <= |caps|
  {
    set i | 0 <= i < n :: NonceKey(caps[i].nonce)
  }

  /** Cap i is unrevoked, unexpired, and its nonce is neither consumed already nor that of an earlier cap. */
  ghost predicate Sound(s: StoreState, caps: seq<CapabilityToken>, now: nat -> int, i: nat)
    requires i < |caps|
  {
    && caps[i].id !in s.revoked
    && now(i + 1) <= caps[i].expiresAt.nanos
    && NonceKey(caps[i].nonce) !in s.nonces + Keys(caps, i)
  }

  /** Why cap i stops the loop, in the order the code asks. */
  ghost predicate StopsWith(s: StoreState, caps: seq<CapabilityToken>, now: nat -> int, i: nat, r: VerifyResult)
    requires i < |caps|
  {
    && !Sound(s, caps, now, i)
    && r == (if caps[i].id in s.revoked then CapRevoked
             else if now(i + 1) > caps[i].expiresAt.nanos then CapExpired
             else ReplayAttack)
  }

  lemma RecordKey(s: StoreState, caps: seq<CapabilityToken>, i: nat)
    requires i < |caps|
    ensures Apply(s.(nonces := s.nonces + Keys(caps, i)), TryRecordNonce(caps[i].nonce)) ==
            s.(nonces := s.nonces + Keys(caps, i + 1))
  {
    assert Keys(caps, i + 1) == Keys(caps, i) + {NonceKey(caps[i].nonce)};
    assert s.nonces + Keys(caps, i) + {NonceKey(caps[i].nonce)} == s.nonces + Keys(caps, i + 1);
  }

  /** The loop consumes the nonces of the longest run of sound caps and blames the first unsound one. */
  lemma {:induction false} CapLoopMeaning(s: StoreState, caps: seq<CapabilityToken>, now: nat -> int, i: nat)
    requires i <= |caps|
    requires forall j :: 0 <= j < i ==> Sound(s, caps, now, j)
    ensures var o := CapLoop(s.(nonces := s.nonces + Keys(caps, i)), caps, now, i);
            && i <= o.used <= |caps|
            && o.store == s.(nonces := s.nonces + Keys(caps, o.used))
            && (forall j :: 0 <= j < o.used ==> Sound(s, caps, now, j))
            && if o.used == |caps| then o.result == Accepted else StopsWith(s, caps, now, o.used, o.result)
    decreases |caps| - i
  {
    if i < |caps| && Sound(s, caps, now, i) {
      RecordKey(s, caps, i);
      CapLoopMeaning(s, caps, now, i + 1);
    }
  }

  /** Exactly when a call with no interference is accepted, and what it leaves behind in every case. */
  lemma VerifyMeaning(check: Envelope -> SignatureCheck, s: StoreState, env: Envelope, now: nat -> int)
    ensures var o := Verify(check, s, env, now);
            var caps := env.caps.Items();
            && o.used <= |caps|
            && o.store == s.(nonces := s.nonces + Keys(caps, o.used))
            && (forall j :: 0 <= j < o.used ==> Sound(s, caps, now, j))
            && (o.result == Accepted <==>
                && check(env) == Good
                && env.sigilId !in s.revoked
                && now(0) <= env.expiresAt.nanos
                && forall j :: 0 <= j < |caps| ==> Sound(s, caps, now, j))
            && (o.result == BodyError <==> check(env) == Unencodable)
            && (o.result == SignatureInvalid <==> check(env) == Bad)
            && (o.result == SigilRevoked <==> check(env) == Good && env.sigilId in s.revoked)
            && (check(env) == Good && env.sigilId !in s.revoked ==>
                  if now(0) > env.expiresAt.nanos then o.result == CapExpired && o.used == 0
                  else if o.used == |caps| then o.result == Accepted
                  else StopsWith(s, caps, now, o.used, o.result))
  {
    var caps := env.caps.Items();
    assert s.(nonces := s.nonces + Keys(caps, 0)) == s;
    CapLoopMeaning(s, caps, now, 0);
  }

  /** A second call on the same envelope is refused as a replay at its first cap, whatever the clock says in between. */
  lemma SecondCallIsReplay(check: Envelope -> SignatureCheck, s: StoreState, env: Envelope,
                           now: nat -> int, later: nat -> int)
    requires Verify(check, s, env, now).result == Accepted
    requires env.caps.Items() != []
    requires later(0) <= env.expiresAt.nanos && later(1) <= env.caps.Items()[0].expiresAt.nanos
    ensures Verify(check, Verify(check, s, env, now).store, env, later) ==
            Outcome(Verify(check, s, env, now).store, ReplayAttack, 0)
  {
    VerifyMeaning(check, s, env, now);
    assert Sound(s, env.caps.Items(), now, 0);
    assert NonceKey(env.caps.Items()[0].nonce) in Verify(check, s, env, now).store.nonces;
  }
}
