/** What every interleaving of verify calls, revocations, store traffic and clock ticks guarantees. */
module VerifyTheorems {
  import opened Protocol
  import opened Store
  import opened Verification
  import opened Interleaving
  import opened Attestation

  // ----- Linearization: an accepted call was acceptable at the instant of its sigil check -----

  /** The call is past a successful sigil check and has not failed. */
  predicate Passing(pc: Pc) {
    match pc
    case AtEnvelopeExpiry | AtCapRevocation | AtCapExpiry | AtNonce | AtAllowed => true
    case Returned(r) => r == Accepted
    case _ => false
  }

  /** Everything the call has checked so far also held in the world v. */
  ghost predicate HeldFor(v: World, call: Call) {
    var caps, i := call.Caps(), call.next;
    && call.env.sigilId !in v.store.revoked
    && (call.pc != AtEnvelopeExpiry ==> v.clock <= call.env.expiresAt.nanos)
    && (forall j :: 0 <= j < i <= |caps| ==>
          caps[j].id !in v.store.revoked && v.clock <= caps[j].expiresAt.nanos && KeyOf(call.env, j) !in v.store.nonces)
    && (i < |caps| && (call.pc == AtCapExpiry || call.pc == AtNonce) ==> caps[i].id !in v.store.revoked)
    && (i < |caps| && call.pc == AtNonce ==> v.clock <= caps[i].expiresAt.nanos)
  }

  ghost predicate HeldAt(v: World, w: World, id: nat)
    requires id in w.calls
  {
    Later(v, w) && HeldFor(v, w.calls[id])
  }

  /** Revocation, consumption and time being monotone, what a step reads now was so in every earlier world. */
  lemma StepHeld(check: Envelope -> SignatureCheck, v: World, w: World, call: Call)
    requires CallInv(check, w, call) && Passing(call.pc) && Later(v, w) && HeldFor(v, call)
    requires Passing(StepCall(check, w.store, w.clock, call).pc)
    ensures HeldFor(v, StepCall(check, w.store, w.clock, call))
  {
  }

  lemma HeldAtSurvives(check: Envelope -> SignatureCheck, v: World, w: World, a: Action, x: World, id: nat)
    requires Inv(check, w) && id in w.calls && Passing(w.calls[id].pc) && HeldAt(v, w, id)
    requires x == Next(check, w, a) && id in x.calls && Passing(x.calls[id].pc)
    ensures HeldAt(v, x, id)
  {
    NextIsLater(check, w, a);
    LaterTransitive(v, w, x);
    if a == Step(id) {
      StepHeld(check, v, w, w.calls[id]);
    }
  }

  /** The only way to start passing is the call's own step at its sigil check, and what it read there held there. */
  lemma SigilCheckOpens(check: Envelope -> SignatureCheck, w: World, a: Action, x: World, id: nat)
    requires Inv(check, w) && (id in w.calls ==> !Passing(w.calls[id].pc))
    requires x == Next(check, w, a) && id in x.calls && Passing(x.calls[id].pc)
    ensures a == Step(id) && id in w.calls && w.calls[id].pc == AtSigil
    ensures HeldAt(w, x, id)
  {
    NextIsLater(check, w, a);
    assert id in w.calls ==> CallInv(check, w, w.calls[id]);
  }

  /** Action k of the run is call id reading the revocation state of its sigil. */
  ghost predicate SigilCheckAt(check: Envelope -> SignatureCheck, start: World, acts: seq<Action>, k: nat, id: nat)
    requires k < |acts|
  {
    var w := At(check, start, acts, k);
    acts[k] == Step(id) && id in w.calls && w.calls[id].pc == AtSigil
  }

  lemma {:induction false} FindSigilCheck(check: Envelope -> SignatureCheck, start: World, acts: seq<Action>,
                                          n: nat, id: nat)
    returns (k: nat)
    requires Initial(start) && n <= |acts|
    requires id in At(check, start, acts, n).calls && Passing(At(check, start, acts, n).calls[id].pc)
    ensures k < n && SigilCheckAt(check, start, acts, k, id)
    ensures HeldAt(At(check, start, acts, k), At(check, start, acts, n), id)
  {
    var w, a, x := At(check, start, acts, n - 1), acts[n - 1], At(check, start, acts, n);
    assert Inv(check, w) by {
      RunKeepsInv(check, start, acts, n - 1);
    }
    if id in w.calls && Passing(w.calls[id].pc) {
      k := FindSigilCheck(check, start, acts, n - 1, id);
      HeldAtSurvives(check, At(check, start, acts, k), w, a, x, id);
    } else {
      k := n - 1;
      SigilCheckOpens(check, w, a, x, id);
    }
  }

  /**
   In every interleaving, a call that has returned nil has an instant, its own
   sigil check, at which the whole check done atomically would have accepted:
   sigil and caps unrevoked, envelope and caps unexpired, all nonces fresh and
   pairwise different.
   */
  lemma AcceptedHasLinearizationPoint(check: Envelope -> SignatureCheck, start: World, acts: seq<Action>, id: nat)
    returns (k: nat)
    requires Initial(start) && id in At(check, start, acts, |acts|).calls
    requires At(check, start, acts, |acts|).calls[id].pc == Returned(Accepted)
    ensures k < |acts| && SigilCheckAt(check, start, acts, k, id)
    ensures var v := At(check, start, acts, k);
            var env := v.calls[id].env;
            && env == At(check, start, acts, |acts|).calls[id].env
            && Verify(check, v.store, env, _ => v.clock).result == Accepted
            && v.store.nonces !! Keys(env.caps.Items(), |env.caps.Items()|)
  {
    k := FindSigilCheck(check, start, acts, |acts|, id);
    var v, w := At(check, start, acts, k), At(check, start, acts, |acts|);
    RunKeepsInv(check, start, acts, |acts|);
    var env := w.calls[id].env;
    var caps := env.caps.Items();
    assert CallInv(check, w, w.calls[id]);
    var now := _ => v.clock;
    forall j | 0 <= j < |caps| ensures Sound(v.store, caps, now, j) {
      assert KeyOf(env, j) !in v.store.nonces;
      assert forall i :: 0 <= i < j ==> KeyOf(env, i) != KeyOf(env, j);
    }
    VerifyMeaning(check, v.store, env, now);
  }

  // ----- Replay -----

  /** No nonce is carried by two accepted calls, nor twice by one: not as a key, and not as bytes. */
  lemma NoncesAcceptedOnce(check: Envelope -> SignatureCheck, start: World, acts: seq<Action>,
                           c: nat, d: nat, i: nat, j: nat)
    requires Initial(start)
    requires var calls := At(check, start, acts, |acts|).calls;
             && c in calls && calls[c].pc == Returned(Accepted) && i < |calls[c].Caps()|
             && d in calls && calls[d].pc == Returned(Accepted) && j < |calls[d].Caps()|
             && calls[c].Caps()[i].nonce.Items() == calls[d].Caps()[j].nonce.Items()
    ensures c == d && i == j
  {
    var w := At(check, start, acts, |acts|);
    RunKeepsInv(check, start, acts, |acts|);
    assert CallInv(check, w, w.calls[c]) && CallInv(check, w, w.calls[d]);
    assert Consumed(w, c, KeyOf(w.calls[c].env, i)) && Consumed(w, d, KeyOf(w.calls[d].env, j));
  }

  /** The key was consumed by a call, recorded by other traffic, or there from the start, and nothing else. */
  ghost predicate Accounted(start: World, acts: seq<Action>, n: nat, w: World, key: string)
    requires n <= |acts|
  {
    || key in start.store.nonces
    || (exists i :: 0 <= i < n && acts[i].Traffic? && acts[i].op.Records(key))
    || exists c :: Consumed(w, c, key)
  }

  lemma ConsumedPersists(check: Envelope -> SignatureCheck, w: World, a: Action, c: nat, key: string)
    requires Inv(check, w) && Consumed(w, c, key)
    ensures Consumed(Next(check, w, a), c, key)
  {
    NextIsLater(check, w, a);
    NextKeepsInv(check, w, a);
    var call := w.calls[c];
    var j :| 0 <= j < call.next <= |call.Caps()| && KeyOf(call.env, j) == key;
    assert CallInv(check, Next(check, w, a), Next(check, w, a).calls[c]);
    assert KeyOf(Next(check, w, a).calls[c].env, j) == key;
  }

  lemma NonceStep(check: Envelope -> SignatureCheck, w: World, a: Action, key: string)
    requires Inv(check, w)
    ensures key in Next(check, w, a).store.nonces <==>
            || key in w.store.nonces
            || (a.Traffic? && a.op.Records(key))
            || (a.Step? && Consumed(Next(check, w, a), a.id, key) && !Consumed(w, a.id, key))
  {
    if a.Step? && a.id in w.calls {
      var call, x := w.calls[a.id], Next(check, w, a);
      assert CallInv(check, w, call);
      if key in x.store.nonces && key !in w.store.nonces {
        assert KeyOf(x.calls[a.id].env, call.next) == key;
      }
      if Consumed(x, a.id, key) && !Consumed(w, a.id, key) {
        NextKeepsInv(check, w, a);
        ConsumedIsStored(check, x, a.id, key);
      }
    }
  }

  /** The set of consumed nonces is exactly what the calls, the other traffic and the initial store put there. */
  lemma {:induction false} NonceAccounting(check: Envelope -> SignatureCheck, start: World, acts: seq<Action>,
                                           n: nat, key: string)
    requires Initial(start) && n <= |acts|
    ensures key in At(check, start, acts, n).store.nonces <==> Accounted(start, acts, n, At(check, start, acts, n), key)
  {
    RunKeepsInv(check, start, acts, n);
    if n > 0 {
      var w, a := At(check, start, acts, n - 1), acts[n - 1];
      RunKeepsInv(check, start, acts, n - 1);
      NonceAccounting(check, start, acts, n - 1, key);
      NonceStep(check, w, a, key);
      if c :| Consumed(w, c, key) {
        ConsumedPersists(check, w, a, c, key);
      }
      if c :| Consumed(Next(check, w, a), c, key) {
        ConsumedIsStored(check, Next(check, w, a), c, key);
      }
    }
  }

  ghost function ReturnedWith(calls: map<nat, Call>, results: set<VerifyResult>): set<nat> {
    set c | c in calls && HasReturned(calls[c], results)
  }

  /** Nothing but its nonces can stand between this envelope and acceptance. */
  predicate Clean(check: Envelope -> SignatureCheck, w: World, env: Envelope) {
    && check(env) == Good && env.sigilId !in w.store.revoked && w.clock <= env.expiresAt.nanos
    && forall i :: 0 <= i < |env.caps.Items()| ==>
         env.caps.Items()[i].id !in w.store.revoked && w.clock <= env.caps.Items()[i].expiresAt.nanos
  }

  predicate HasReturnedOn(w: World, id: nat, env: Envelope) {
    id in w.calls && w.calls[id].env == env && w.calls[id].pc.Returned?
  }

  /** A clean call is accepted or stopped by a nonce that is consumed. */
  lemma CleanResult(check: Envelope -> SignatureCheck, w: World, id: nat, env: Envelope)
    requires Inv(check, w) && HasReturnedOn(w, id, env) && Clean(check, w, env)
    ensures var call := w.calls[id];
            || (call.pc == Returned(Accepted) && call.next == |env.caps.Items()|)
            || (call.pc == Returned(ReplayAttack) && call.next < |env.caps.Items()| &&
                KeyOf(env, call.next) in w.store.nonces)
  {
    assert CallInv(check, w, w.calls[id]);
  }

  /** The calls of a finished contest over one envelope. */
  ghost predicate Contest(check: Envelope -> SignatureCheck, start: World, acts: seq<Action>, env: Envelope,
                          players: set<nat>)
  {
    var w := At(check, start, acts, |acts|);
    var caps := env.caps.Items();
    && Initial(start) && caps != [] && players != {}
    // the players are exactly the calls on this envelope, and all have returned
    && (forall c :: c in players <==> c in w.calls && w.calls[c].env == env)
    && (forall c :: c in players ==> w.calls[c].pc.Returned?)
    // its nonces are pairwise different and used by nobody else
    && (forall i, j :: 0 <= i < j < |caps| ==> KeyOf(env, i) != KeyOf(env, j))
    && (forall i :: 0 <= i < |caps| ==> KeyOf(env, i) !in start.store.nonces)
    && (forall i, n :: 0 <= i < |caps| && 0 <= n < |acts| && acts[n].Traffic? ==> !acts[n].op.Records(KeyOf(env, i)))
    && (forall i, c :: 0 <= i < |caps| && c in w.calls && c !in players ==> !Consumed(w, c, KeyOf(env, i)))
    // nothing is revoked or expired by the end
    && Clean(check, w, env)
  }

  lemma PlayerResult(check: Envelope -> SignatureCheck, start: World, acts: seq<Action>, env: Envelope,
                     players: set<nat>, c: nat)
    requires Contest(check, start, acts, env, players) && c in players
    ensures var call := At(check, start, acts, |acts|).calls[c];
            || (call.pc == Returned(Accepted) && call.next == |call.Caps()|)
            || (call.pc == Returned(ReplayAttack) && call.next < |call.Caps()|)
  {
    var w := At(check, start, acts, |acts|);
    assert Inv(check, w) by {
      RunKeepsInv(check, start, acts, |acts|);
    }
    CleanResult(check, w, c, env);
  }

  /** The nonce that stopped a player was consumed by another one, who therefore got further. */
  lemma Overtaken(check: Envelope -> SignatureCheck, start: World, acts: seq<Action>, env: Envelope,
                  players: set<nat>, c: nat)
    returns (d: nat)
    requires Contest(check, start, acts, env, players) && c in players
    requires At(check, start, acts, |acts|).calls[c].next < |env.caps.Items()|
    ensures var calls := At(check, start, acts, |acts|).calls;
            d in players && calls[d].next > calls[c].next
  {
    var w := At(check, start, acts, |acts|);
    var key := KeyOf(env, w.calls[c].next);
    assert key in w.store.nonces by {
      PlayerResult(check, start, acts, env, players, c);
      RunKeepsInv(check, start, acts, |acts|);
      assert CallInv(check, w, w.calls[c]);
    }
    NonceAccounting(check, start, acts, |acts|, key);
    d :| Consumed(w, d, key);
  }

  /** Some player got past the first i caps. */
  lemma {:induction false} SomePlayerReaches(check: Envelope -> SignatureCheck, start: World, acts: seq<Action>,
                                             env: Envelope, players: set<nat>, i: nat)
    returns (c: nat)
    requires Contest(check, start, acts, env, players) && i <= |env.caps.Items()|
    ensures c in players && At(check, start, acts, |acts|).calls[c].next >= i
  {
    if i == 0 {
      c :| c in players;
    } else {
      c := SomePlayerReaches(check, start, acts, env, players, i - 1);
      if At(check, start, acts, |acts|).calls[c].next < i {
        c := Overtaken(check, start, acts, env, players, c);
      }
    }
  }

  /** Of N finished calls on one envelope exactly one is accepted and the other N - 1 are told of a replay. */
  lemma ExactlyOneAccepted(check: Envelope -> SignatureCheck, start: World, acts: seq<Action>, env: Envelope,
                           players: set<nat>)
    requires Contest(check, start, acts, env, players)
    ensures var calls := At(check, start, acts, |acts|).calls;
            && |players * ReturnedWith(calls, {Accepted})| == 1
            && |players * ReturnedWith(calls, {ReplayAttack})| == |players| - 1
  {
    var calls := At(check, start, acts, |acts|).calls;
    var caps := env.caps.Items();
    var winner := SomePlayerReaches(check, start, acts, env, players, |caps|);
    PlayerResult(check, start, acts, env, players, winner);
    forall c | c in players && c != winner ensures calls[c].pc == Returned(ReplayAttack) {
      PlayerResult(check, start, acts, env, players, c);
      if calls[c].pc == Returned(Accepted) {
        NoncesAcceptedOnce(check, start, acts, c, winner, 0, 0);
      }
    }
    assert players * ReturnedWith(calls, {Accepted}) == {winner};
    assert players * ReturnedWith(calls, {ReplayAttack}) == players - {winner};
  }

  // ----- Revocation -----

  /** The call has not yet read the revocation state of its sigil. */
  predicate BeforeSigilCheck(w: World, id: nat) {
    id in w.calls ==> w.calls[id].pc == AtSignature || w.calls[id].pc == AtSigil
  }

  /** The call knows nothing of its sigil yet, or has been told that it is revoked. */
  predicate SigilRefused(w: World, id: nat) {
    id in w.calls ==> w.calls[id].next == 0 &&
                      w.calls[id].pc in {AtSignature, AtSigil, AtDenied(SigilRevoked), Returned(SigilRevoked)}
  }

  /** If its sigil was revoked in v, a well-signed call is refused in w. */
  ghost predicate SigilFinal(check: Envelope -> SignatureCheck, v: World, w: World, id: nat) {
    && id in w.calls
    && w.calls[id].env.sigilId in v.store.revoked
    && check(w.calls[id].env) == Good
    ==> SigilRefused(w, id)
  }

  lemma SigilStep(check: Envelope -> SignatureCheck, v: World, w: World, a: Action, x: World, id: nat)
    requires Later(v, w) && SigilFinal(check, v, w, id) && x == Next(check, w, a)
    ensures SigilFinal(check, v, x, id)
  {
  }

  lemma SigilNotRead(check: Envelope -> SignatureCheck, w: World, id: nat)
    requires Inv(check, w) && BeforeSigilCheck(w, id)
    ensures SigilFinal(check, w, w, id)
  {
    assert id in w.calls ==> CallInv(check, w, w.calls[id]);
  }

  /** Once a sigil is revoked, a call that had not begun (or not yet looked) can only be told so, and consumes nothing. */
  lemma {:induction false} RevokedSigilIsFinal(check: Envelope -> SignatureCheck, start: World, acts: seq<Action>,
                                               m: nat, n: nat, id: nat)
    requires Initial(start) && m <= n <= |acts| && BeforeSigilCheck(At(check, start, acts, m), id)
    ensures SigilFinal(check, At(check, start, acts, m), At(check, start, acts, n), id)
    decreases n
  {
    if m < n {
      var v, w, x := At(check, start, acts, m), At(check, start, acts, n - 1), At(check, start, acts, n);
      assert Later(v, w) && SigilFinal(check, v, w, id) by {
        RunIsLater(check, start, acts, m, n - 1);
        RevokedSigilIsFinal(check, start, acts, m, n - 1, id);
      }
      SigilStep(check, v, w, acts[n - 1], x, id);
    } else {
      RunKeepsInv(check, start, acts, m);
      SigilNotRead(check, At(check, start, acts, m), id);
    }
  }

  /** The call has not yet read the revocation state of cap k. */
  predicate BeforeCapCheck(w: World, id: nat, k: nat) {
    id in w.calls ==>
      || w.calls[id].next < k
      || (w.calls[id].next == k && w.calls[id].pc in {AtSignature, AtSigil, AtEnvelopeExpiry, AtCapRevocation})
  }

  /** The call has not got past the revocation check of cap k and cannot be accepted. */
  predicate CapRefused(w: World, id: nat, k: nat) {
    id in w.calls ==>
      && w.calls[id].next <= k
      && (w.calls[id].next == k ==> w.calls[id].pc !in {AtCapExpiry, AtNonce})
      && w.calls[id].pc != AtAllowed && w.calls[id].pc != Returned(Accepted)
  }

  /** If its cap k was revoked in v, the call is refused in w. */
  ghost predicate CapFinal(v: World, w: World, id: nat, k: nat) {
    && id in w.calls
    && k < |w.calls[id].Caps()|
    && w.calls[id].Caps()[k].id in v.store.revoked
    ==> CapRefused(w, id, k)
  }

  lemma CapStep(check: Envelope -> SignatureCheck, v: World, w: World, a: Action, x: World, id: nat, k: nat)
    requires Inv(check, w) && Later(v, w) && CapFinal(v, w, id, k) && x == Next(check, w, a)
    ensures CapFinal(v, x, id, k)
  {
    assert id in w.calls ==> CallInv(check, w, w.calls[id]);
  }

  lemma CapNotRead(check: Envelope -> SignatureCheck, w: World, id: nat, k: nat)
    requires Inv(check, w) && BeforeCapCheck(w, id, k)
    ensures CapFinal(w, w, id, k)
  {
    assert id in w.calls ==> CallInv(check, w, w.calls[id]);
  }

  /** Once cap k is revoked, a call that had not looked at it never consumes its nonce or a later one, nor is accepted. */
  lemma {:induction false} RevokedCapIsFinal(check: Envelope -> SignatureCheck, start: World, acts: seq<Action>,
                                             m: nat, n: nat, id: nat, k: nat)
    requires Initial(start) && m <= n <= |acts| && BeforeCapCheck(At(check, start, acts, m), id, k)
    ensures CapFinal(At(check, start, acts, m), At(check, start, acts, n), id, k)
    decreases n
  {
    if m < n {
      var v, w, x := At(check, start, acts, m), At(check, start, acts, n - 1), At(check, start, acts, n);
      assert Inv(check, w) && Later(v, w) && CapFinal(v, w, id, k) by {
        RunKeepsInv(check, start, acts, n - 1);
        RunIsLater(check, start, acts, m, n - 1);
        RevokedCapIsFinal(check, start, acts, m, n - 1, id, k);
      }
      CapStep(check, v, w, acts[n - 1], x, id, k);
    } else {
      RunKeepsInv(check, start, acts, m);
      CapNotRead(check, At(check, start, acts, m), id, k);
    }
  }

  // ----- Consumption and counters -----

  /** A returned call consumed the nonces of a prefix of its caps: all of them exactly if it was accepted. */
  lemma ConsumesPrefix(check: Envelope -> SignatureCheck, start: World, acts: seq<Action>, id: nat)
    requires Initial(start) && id in At(check, start, acts, |acts|).calls
    requires At(check, start, acts, |acts|).calls[id].pc.Returned?
    ensures var w := At(check, start, acts, |acts|);
            var call := w.calls[id];
            && call.next <= |call.Caps()|
            && (forall key :: Consumed(w, id, key) <==> key in Keys(call.Caps(), call.next))
            && (forall c, key :: c != id && key in Keys(call.Caps(), call.next) ==> !Consumed(w, c, key))
            && |Keys(call.Caps(), call.next)| == call.next
            && (call.Caps() != [] ==> (call.next == |call.Caps()| <==> call.pc == Returned(Accepted)))
  {
    var w := At(check, start, acts, |acts|);
    RunKeepsInv(check, start, acts, |acts|);
    var call := w.calls[id];
    assert CallInv(check, w, call);
    forall key ensures Consumed(w, id, key) <==> key in Keys(call.Caps(), call.next) {
      if key in Keys(call.Caps(), call.next) {
        var i :| 0 <= i < call.next && NonceKey(call.Caps()[i].nonce) == key;
        assert KeyOf(call.env, i) == key;
      }
    }
    DistinctKeysCount(call.env, call.next);
  }

  lemma LastKeyIsNew(env: Envelope, n: nat)
    requires n < |env.caps.Items()|
    requires forall i :: 0 <= i < n ==> KeyOf(env, i) != KeyOf(env, n)
    ensures KeyOf(env, n) !in Keys(env.caps.Items(), n)
    ensures Keys(env.caps.Items(), n + 1) == Keys(env.caps.Items(), n) + {KeyOf(env, n)}
  {
    forall i | 0 <= i < n ensures NonceKey(env.caps.Items()[i].nonce) != KeyOf(env, n) {
      assert KeyOf(env, i) != KeyOf(env, n);
    }
  }

  lemma {:induction false} DistinctKeysCount(env: Envelope, n: nat)
    requires n <= |env.caps.Items()|
    requires forall i, j :: 0 <= i < j < n ==> KeyOf(env, i) != KeyOf(env, j)
    ensures |Keys(env.caps.Items(), n)| == n
  {
    if n > 0 {
      DistinctKeysCount(env, n - 1);
      LastKeyIsNew(env, n - 1);
    }
  }

  /** The action makes a call return with one of these results. */
  ghost predicate Returns(check: Envelope -> SignatureCheck, w: World, a: Action, results: set<VerifyResult>) {
    && a.Step? && a.id in w.calls && !w.calls[a.id].pc.Returned?
    && StepCall(check, w.store, w.clock, w.calls[a.id]).pc.Returned?
    && StepCall(check, w.store, w.clock, w.calls[a.id]).pc.result in results
  }

  predicate HasReturned(call: Call, results: set<VerifyResult>) {
    call.pc.Returned? && call.pc.result in results
  }

  lemma UpdateCount(calls: map<nat, Call>, id: nat, call: Call, results: set<VerifyResult>)
    requires id in calls && HasReturned(calls[id], results) ==> call == calls[id]
    ensures |ReturnedWith(calls[id := call], results)| ==
            |ReturnedWith(calls, results)| +
            if HasReturned(call, results) && !(id in calls && HasReturned(calls[id], results)) then 1 else 0
  {
    var before, after := ReturnedWith(calls, results), ReturnedWith(calls[id := call], results);
    if HasReturned(call, results) && !(id in calls && HasReturned(calls[id], results)) {
      assert after == before + {id};
    } else {
      assert after == before;
    }
  }

  lemma ReturnCount(check: Envelope -> SignatureCheck, w: World, a: Action, results: set<VerifyResult>)
    ensures |ReturnedWith(Next(check, w, a).calls, results)| ==
            |ReturnedWith(w.calls, results)| + if Returns(check, w, a, results) then 1 else 0
  {
    if a.Step? && a.id in w.calls {
      UpdateCount(w.calls, a.id, StepCall(check, w.store, w.clock, w.calls[a.id]), results);
    } else if a.Begin? && a.id !in w.calls {
      UpdateCount(w.calls, a.id, Call(a.env, AtSignature, 0), results);
    }
  }

  /** A nil return goes through the allowed counter and a revoked return through the denied one, no other does. */
  lemma CountedReturns(check: Envelope -> SignatureCheck, w: World, a: Action)
    requires Inv(check, w)
    ensures Returns(check, w, a, {Accepted}) <==> a.Step? && a.id in w.calls && w.calls[a.id].pc == AtAllowed
    ensures Returns(check, w, a, {SigilRevoked, CapRevoked}) <==> a.Step? && a.id in w.calls && w.calls[a.id].pc.AtDenied?
  {
    assert a.Step? && a.id in w.calls ==> CallInv(check, w, w.calls[a.id]);
  }

  lemma WrapAdd(counter: nat, n: nat, moves: bool, counter': nat, n': nat)
    requires counter == n % COUNTER
    requires counter' == if moves then (counter + 1) % COUNTER else counter
    requires n' == n + if moves then 1 else 0
    ensures counter' == n' % COUNTER
  {
  }

  ghost predicate Counted(w: World) {
    && w.allowed == |ReturnedWith(w.calls, {Accepted})| % 0x1_0000_0000_0000_0000
    && w.denied == |ReturnedWith(w.calls, {SigilRevoked, CapRevoked})| % 0x1_0000_0000_0000_0000
  }

  lemma CounterMoves(check: Envelope -> SignatureCheck, w: World, a: Action)
    requires Inv(check, w)
    ensures var x := Next(check, w, a);
            && x.allowed == (if Returns(check, w, a, {Accepted}) then (w.allowed + 1) % COUNTER else w.allowed)
            && x.denied == if Returns(check, w, a, {SigilRevoked, CapRevoked}) then (w.denied + 1) % COUNTER else w.denied
  {
    CountedReturns(check, w, a);
  }

  lemma AllowedStep(check: Envelope -> SignatureCheck, w: World, a: Action, x: World, results: set<VerifyResult>)
    requires Inv(check, w) && x == Next(check, w, a) && results == {Accepted}
    requires w.allowed == |ReturnedWith(w.calls, results)| % COUNTER
    ensures x.allowed == |ReturnedWith(x.calls, results)| % COUNTER
  {
    CounterMoves(check, w, a);
    ReturnCount(check, w, a, results);
    WrapAdd(w.allowed, |ReturnedWith(w.calls, results)|, Returns(check, w, a, results),
            x.allowed, |ReturnedWith(x.calls, results)|);
  }

  lemma DeniedStep(check: Envelope -> SignatureCheck, w: World, a: Action, x: World, results: set<VerifyResult>)
    requires Inv(check, w) && x == Next(check, w, a) && results == {SigilRevoked, CapRevoked}
    requires w.denied == |ReturnedWith(w.calls, results)| % COUNTER
    ensures x.denied == |ReturnedWith(x.calls, results)| % COUNTER
  {
    CounterMoves(check, w, a);
    ReturnCount(check, w, a, results);
    WrapAdd(w.denied, |ReturnedWith(w.calls, results)|, Returns(check, w, a, results),
            x.denied, |ReturnedWith(x.calls, results)|);
  }

  lemma CounterStep(check: Envelope -> SignatureCheck, w: World, a: Action, x: World)
    requires Inv(check, w) && Counted(w) && x == Next(check, w, a)
    ensures Counted(x)
  {
    AllowedStep(check, w, a, x, {Accepted});
    DeniedStep(check, w, a, x, {SigilRevoked, CapRevoked});
  }

  /**
   The allowed counter is the number of nil returns and the denied counter the
   number of sigil- and cap-revoked returns, modulo 2^64;
   expired, replayed and badly signed calls move neither.
   */
  lemma {:induction false} CountersCountReturns(check: Envelope -> SignatureCheck, start: World, acts: seq<Action>, n: nat)
    requires Initial(start) && n <= |acts|
    ensures Counted(At(check, start, acts, n))
  {
    if n > 0 {
      var w := At(check, start, acts, n - 1);
      RunKeepsInv(check, start, acts, n - 1);
      CountersCountReturns(check, start, acts, n - 1);
      CounterStep(check, w, acts[n - 1], At(check, start, acts, n));
    }
  }

  // ----- Authenticity -----

  /**
   With a key that verifies nothing but issued messages, every call that gets
   past the signature stage, and so every accepted one, carries an envelope the
   broker issued, field by field, up to the signature bytes.
   */
  lemma CheckedWasIssued(verify: (Bytes, Bytes) -> bool, issued: set<Envelope>, start: World, acts: seq<Action>, id: nat)
    returns (e: Envelope)
    requires Initial(start) && OnlySigned(verify, issued)
    requires id in At(CheckWith(verify), start, acts, |acts|).calls
    requires At(CheckWith(verify), start, acts, |acts|).calls[id].pc !in
             {AtSignature, Returned(BodyError), Returned(SignatureInvalid)}
    ensures var env := At(CheckWith(verify), start, acts, |acts|).calls[id].env;
            e in issued && env == e.(signature := env.signature)
  {
    var w := At(CheckWith(verify), start, acts, |acts|);
    RunKeepsInv(CheckWith(verify), start, acts, |acts|);
    assert CallInv(CheckWith(verify), w, w.calls[id]);
    e := GoodWasIssued(verify, issued, w.calls[id].env);
  }
}
