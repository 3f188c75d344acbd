/** A call that is left alone takes the steps of the uninterrupted computation. */
module Schedules {
  import opened Protocol
  import opened Store
  import opened Verification
  import opened Interleaving

  function Rank(pc: Pc): nat {
    match pc
    case AtSignature => 7
    case AtSigil => 6
    case AtEnvelopeExpiry => 5
    case AtCapRevocation => 4
    case AtCapExpiry => 3
    case AtNonce => 2
    case AtAllowed | AtDenied(_) => 1
    case Returned(_) => 0
  }

  function Remaining(call: Call): nat {
    if call.next < |call.Caps()| then |call.Caps()| - call.next else 0
  }

  /** Call id steps until it returns while nothing else moves. */
  function Solo(check: Envelope -> SignatureCheck, w: World, id: nat): World
    requires id in w.calls
    decreases Remaining(w.calls[id]), Rank(w.calls[id].pc)
  {
    if w.calls[id].pc.Returned? then w else Solo(check, Next(check, w, Step(id)), id)
  }

  /** Left alone, the call leaves this store and ends up like this, and no other call has moved. */
  ghost predicate Ends(check: Envelope -> SignatureCheck, w: World, id: nat, s: StoreState, call: Call) {
    && id in w.calls
    && Solo(check, w, id).store == s
    && Solo(check, w, id).calls == w.calls[id := call]
  }

  lemma EndsNow(check: Envelope -> SignatureCheck, w: World, id: nat)
    requires id in w.calls && w.calls[id].pc.Returned?
    ensures Ends(check, w, id, w.store, w.calls[id])
  {
  }

  lemma Overwrite(calls: map<nat, Call>, id: nat, c: Call, d: Call)
    ensures calls[id := c][id := d] == calls[id := d]
  {
  }

  lemma EndsAfter(check: Envelope -> SignatureCheck, w: World, id: nat, s: StoreState, call: Call)
    requires id in w.calls && !w.calls[id].pc.Returned?
    requires Ends(check, StepWorld(check, w, id), id, s, call)
    ensures Ends(check, w, id, s, call)
  {
    Overwrite(w.calls, id, StepWorld(check, w, id).calls[id], call);
  }

  /** The counter update is the last step. */
  lemma CountedEnds(check: Envelope -> SignatureCheck, w: World, id: nat, r: VerifyResult)
    requires id in w.calls && (w.calls[id].pc == AtDenied(r) || (w.calls[id].pc == AtAllowed && r == Accepted))
    ensures Ends(check, w, id, w.store, w.calls[id].(pc := Returned(r)))
  {
    EndsNow(check, StepWorld(check, w, id), id);
    EndsAfter(check, w, id, w.store, w.calls[id].(pc := Returned(r)));
  }

  lemma ReplayEnds(check: Envelope -> SignatureCheck, w: World, id: nat)
    requires id in w.calls && w.calls[id].pc == AtNonce && w.calls[id].next < |w.calls[id].Caps()|
    requires KeyOf(w.calls[id].env, w.calls[id].next) in w.store.nonces
    ensures Ends(check, w, id, w.store, w.calls[id].(pc := Returned(ReplayAttack)))
  {
    var x := StepWorld(check, w, id);
    assert x.store == w.store;
    EndsNow(check, x, id);
    EndsAfter(check, w, id, w.store, w.calls[id].(pc := Returned(ReplayAttack)));
  }

  lemma ExpiryEnds(check: Envelope -> SignatureCheck, w: World, id: nat)
    requires id in w.calls && w.calls[id].next < |w.calls[id].Caps()| && w.calls[id].pc == AtCapExpiry
    requires w.clock > w.calls[id].Caps()[w.calls[id].next].expiresAt.nanos
    ensures Ends(check, w, id, w.store, w.calls[id].(pc := Returned(CapExpired)))
  {
    EndsNow(check, StepWorld(check, w, id), id);
    EndsAfter(check, w, id, w.store, w.calls[id].(pc := Returned(CapExpired)));
  }

  /** Where the loop stands once the revocation and expiry checks of the current cap are done. */
  function Moved(w: World, id: nat, pc: Pc): World
    requires id in w.calls
  {
    w.(calls := w.calls[id := w.calls[id].(pc := pc)])
  }

  lemma ChecksPass(check: Envelope -> SignatureCheck, w: World, id: nat)
    requires id in w.calls && w.calls[id].next < |w.calls[id].Caps()| && w.calls[id].pc == AtCapRevocation
    requires w.calls[id].Caps()[w.calls[id].next].id !in w.store.revoked
    ensures StepWorld(check, w, id) == Moved(w, id, AtCapExpiry)
    ensures w.clock <= w.calls[id].Caps()[w.calls[id].next].expiresAt.nanos ==>
              StepWorld(check, Moved(w, id, AtCapExpiry), id) == Moved(w, id, AtNonce)
  {
    Overwrite(w.calls, id, w.calls[id].(pc := AtCapExpiry), w.calls[id].(pc := AtNonce));
  }

  /** A cap that passes its first two checks decides by its nonce. */
  lemma ReachesNonce(check: Envelope -> SignatureCheck, w: World, id: nat, s: StoreState, call: Call)
    requires id in w.calls && w.calls[id].next < |w.calls[id].Caps()| && w.calls[id].pc == AtCapRevocation
    requires var cap := w.calls[id].Caps()[w.calls[id].next];
             cap.id !in w.store.revoked && w.clock <= cap.expiresAt.nanos
    requires Ends(check, Moved(w, id, AtNonce), id, s, call)
    ensures Ends(check, w, id, s, call)
  {
    ChecksPass(check, w, id);
    EndsAfter(check, Moved(w, id, AtCapExpiry), id, s, call);
    EndsAfter(check, w, id, s, call);
  }

  /** The world in which the nonce of the current cap is consumed and the next cap is up. */
  function NextCap(w: World, id: nat): World
    requires id in w.calls && w.calls[id].next < |w.calls[id].Caps()|
  {
    var call := w.calls[id];
    w.(store := Apply(w.store, TryRecordNonce(call.Caps()[call.next].nonce)),
       calls := w.calls[id := call.(next := call.next + 1).LoopHead()])
  }

  lemma NonceConsumed(check: Envelope -> SignatureCheck, w: World, id: nat)
    requires id in w.calls && w.calls[id].next < |w.calls[id].Caps()|
    requires KeyOf(w.calls[id].env, w.calls[id].next) !in w.store.nonces
    ensures StepWorld(check, Moved(w, id, AtNonce), id) == NextCap(w, id)
  {
    Overwrite(w.calls, id, w.calls[id].(pc := AtNonce), NextCap(w, id).calls[id]);
  }

  lemma CapPasses(check: Envelope -> SignatureCheck, w: World, id: nat, s: StoreState, call: Call)
    requires id in w.calls && w.calls[id].next < |w.calls[id].Caps()| && w.calls[id].pc == AtCapRevocation
    requires var cap := w.calls[id].Caps()[w.calls[id].next];
             cap.id !in w.store.revoked && w.clock <= cap.expiresAt.nanos && NonceKey(cap.nonce) !in w.store.nonces
    requires Ends(check, NextCap(w, id), id, s, call)
    ensures Ends(check, w, id, s, call)
  {
    NonceConsumed(check, w, id);
    EndsAfter(check, Moved(w, id, AtNonce), id, s, call);
    ReachesNonce(check, w, id, s, call);
  }

  lemma RevokedEnds(check: Envelope -> SignatureCheck, w: World, id: nat)
    requires id in w.calls && w.calls[id].next < |w.calls[id].Caps()| && w.calls[id].pc == AtCapRevocation
    requires w.calls[id].Caps()[w.calls[id].next].id in w.store.revoked
    ensures Ends(check, w, id, w.store, w.calls[id].(pc := Returned(CapRevoked)))
  {
    CountedEnds(check, StepWorld(check, w, id), id, CapRevoked);
    EndsAfter(check, w, id, w.store, w.calls[id].(pc := Returned(CapRevoked)));
  }

  lemma ExpiredEnds(check: Envelope -> SignatureCheck, w: World, id: nat)
    requires id in w.calls && w.calls[id].next < |w.calls[id].Caps()| && w.calls[id].pc == AtCapRevocation
    requires var cap := w.calls[id].Caps()[w.calls[id].next];
             cap.id !in w.store.revoked && w.clock > cap.expiresAt.nanos
    ensures Ends(check, w, id, w.store, w.calls[id].(pc := Returned(CapExpired)))
  {
    ChecksPass(check, w, id);
    ExpiryEnds(check, Moved(w, id, AtCapExpiry), id);
    EndsAfter(check, w, id, w.store, w.calls[id].(pc := Returned(CapExpired)));
  }

  lemma ReplayedEnds(check: Envelope -> SignatureCheck, w: World, id: nat)
    requires id in w.calls && w.calls[id].next < |w.calls[id].Caps()| && w.calls[id].pc == AtCapRevocation
    requires var cap := w.calls[id].Caps()[w.calls[id].next];
             cap.id !in w.store.revoked && w.clock <= cap.expiresAt.nanos && NonceKey(cap.nonce) in w.store.nonces
    ensures Ends(check, w, id, w.store, w.calls[id].(pc := Returned(ReplayAttack)))
  {
    ReplayEnds(check, Moved(w, id, AtNonce), id);
    ReachesNonce(check, w, id, w.store, w.calls[id].(pc := Returned(ReplayAttack)));
  }

  lemma {:induction false} SoloLoop(check: Envelope -> SignatureCheck, w: World, id: nat, now: nat -> int)
    requires id in w.calls && w.calls[id].next <= |w.calls[id].Caps()| && forall k :: now(k) == w.clock
    requires w.calls[id] == w.calls[id].LoopHead()
    ensures var o := CapLoop(w.store, w.calls[id].Caps(), now, w.calls[id].next);
            Ends(check, w, id, o.store, Call(w.calls[id].env, Returned(o.result), o.used))
    decreases Remaining(w.calls[id])
  {
    var caps, i := w.calls[id].Caps(), w.calls[id].next;
    if i == |caps| {
      CountedEnds(check, w, id, Accepted);
    } else if caps[i].id in w.store.revoked {
      RevokedEnds(check, w, id);
    } else if w.clock > caps[i].expiresAt.nanos {
      ExpiredEnds(check, w, id);
    } else if NonceKey(caps[i].nonce) in w.store.nonces {
      ReplayedEnds(check, w, id);
    } else {
      SoloLoop(check, NextCap(w, id), id, now);
      var o := CapLoop(w.store, caps, now, i);
      CapPasses(check, w, id, o.store, Call(w.calls[id].env, Returned(o.result), o.used));
    }
  }

  /** The stages before the loop. */
  lemma SoloHead(check: Envelope -> SignatureCheck, w: World, id: nat, now: nat -> int)
    requires id in w.calls && w.calls[id].pc == AtSigil && w.calls[id].next == 0 && forall k :: now(k) == w.clock
    requires check(w.calls[id].env) == Good
    ensures var o := Verify(check, w.store, w.calls[id].env, now);
            Ends(check, w, id, o.store, Call(w.calls[id].env, Returned(o.result), o.used))
  {
    var o := Verify(check, w.store, w.calls[id].env, now);
    var x := StepWorld(check, w, id);
    if w.calls[id].env.sigilId in w.store.revoked {
      CountedEnds(check, x, id, SigilRevoked);
    } else {
      var y := StepWorld(check, x, id);
      if w.clock > w.calls[id].env.expiresAt.nanos {
        EndsNow(check, y, id);
      } else {
        SoloLoop(check, y, id, now);
      }
      EndsAfter(check, x, id, o.store, Call(w.calls[id].env, Returned(o.result), o.used));
    }
    EndsAfter(check, w, id, o.store, Call(w.calls[id].env, Returned(o.result), o.used));
  }

  /** A call that nothing interrupts computes exactly Verify, at the clock it began with. */
  lemma SoloIsVerify(check: Envelope -> SignatureCheck, w: World, id: nat, env: Envelope, now: nat -> int)
    requires id !in w.calls && forall k :: now(k) == w.clock
    ensures var o := Verify(check, w.store, env, now);
            Ends(check, Next(check, w, Begin(id, env)), id, o.store, Call(env, Returned(o.result), o.used))
  {
    var o := Verify(check, w.store, env, now);
    var x := Next(check, w, Begin(id, env));
    var y := StepWorld(check, x, id);
    if check(env) == Good {
      SoloHead(check, y, id, now);
    } else {
      EndsNow(check, y, id);
    }
    EndsAfter(check, x, id, o.store, Call(env, Returned(o.result), o.used));
  }
}
