/**
 The accepted calls of a run, one atomic verification each. Leave out all steps
 of all calls, put the whole computation where each accepted call reads the
 revocation state of its sigil, keep the clock and the other store traffic: all
 of them are accepted again.
 */
module AtomicReplay {
  import opened Protocol
  import opened Store
  import opened Verification
  import opened Interleaving
  import opened VerifyTheorems

  predicate Wins(w: World, id: nat) {
    id in w.calls && w.calls[id].pc == Returned(Accepted)
  }

  /** Action k is the sigil check of a call that has been accepted in the world `end`. */
  ghost predicate Fires(check: Envelope -> SignatureCheck, start: World, acts: seq<Action>, end: World, k: nat)
    requires k < |acts|
  {
    acts[k].Step? && SigilCheckAt(check, start, acts, k, acts[k].id) && Wins(end, acts[k].id)
  }

  function Clocks(w: World): nat -> int {
    _ => w.clock
  }

  /** One action of the replay: the store before it, the world of the run before it, and whether it fires. */
  function ReplayStep(check: Envelope -> SignatureCheck, s: StoreState, w: World, a: Action, fires: bool): StoreState {
    match a
    case Traffic(op) => Apply(s, op)
    case Step(id) =>
      if fires && id in w.calls then Verify(check, s, w.calls[id].env, Clocks(w)).store else s
    case _ => s
  }

  ghost function Replay(check: Envelope -> SignatureCheck, start: World, acts: seq<Action>, end: World, n: nat): StoreState
    requires n <= |acts|
  {
    if n == 0 then start.store
    else ReplayStep(check, Replay(check, start, acts, end, n - 1), At(check, start, acts, n - 1), acts[n - 1],
                    Fires(check, start, acts, end, n - 1))
  }

  // ----- A call reads its sigil once -----

  predicate PastSigil(w: World, id: nat) {
    id in w.calls && w.calls[id].pc != AtSignature && w.calls[id].pc != AtSigil
  }

  lemma PastSigilStays(check: Envelope -> SignatureCheck, w: World, a: Action, id: nat)
    requires PastSigil(w, id) || (a == Step(id) && id in w.calls && w.calls[id].pc == AtSigil)
    ensures PastSigil(Next(check, w, a), id)
  {
  }

  lemma {:induction false} PastSigilAfter(check: Envelope -> SignatureCheck, start: World, acts: seq<Action>,
                                          k: nat, n: nat, id: nat)
    requires k < n <= |acts| && SigilCheckAt(check, start, acts, k, id)
    ensures PastSigil(At(check, start, acts, n), id)
    decreases n
  {
    if k < n - 1 {
      PastSigilAfter(check, start, acts, k, n - 1, id);
    }
    PastSigilStays(check, At(check, start, acts, n - 1), acts[n - 1], id);
  }

  lemma SigilCheckOnce(check: Envelope -> SignatureCheck, start: World, acts: seq<Action>, k: nat, l: nat, id: nat)
    requires k < |acts| && l < |acts| && SigilCheckAt(check, start, acts, k, id) && SigilCheckAt(check, start, acts, l, id)
    ensures k == l
  {
    if k < l {
      PastSigilAfter(check, start, acts, k, l, id);
    } else if l < k {
      PastSigilAfter(check, start, acts, l, k, id);
    }
  }

  // ----- What the replay holds -----

  /** Everything but the nonces. */
  predicate SameButNonces(s: StoreState, t: StoreState) {
    s == t.(nonces := s.nonces)
  }

  /** The key is that of a nonce of the call that action k steps. */
  ghost predicate Carries(check: Envelope -> SignatureCheck, start: World, acts: seq<Action>, k: nat, key: string)
    requires k < |acts|
  {
    var w := At(check, start, acts, k);
    && acts[k].Step? && acts[k].id in w.calls
    && key in Keys(w.calls[acts[k].id].Caps(), |w.calls[acts[k].id].Caps()|)
  }

  ghost predicate RecordsAt(acts: seq<Action>, i: nat, key: string)
    requires i < |acts|
  {
    acts[i].Traffic? && acts[i].op.Records(key)
  }

  lemma AnyRecords(acts: seq<Action>, n: nat, key: string)
    requires n <= |acts|
    ensures (exists i :: 0 <= i < n && RecordsAt(acts, i, key)) <==>
            exists i :: 0 <= i < n && acts[i].Traffic? && acts[i].op.Records(key)
  {
    if i :| 0 <= i < n && acts[i].Traffic? && acts[i].op.Records(key) {
      assert RecordsAt(acts, i, key);
    }
  }

  /** There from the start, recorded by other traffic, or carried by a call that was accepted. */
  ghost predicate Expected(check: Envelope -> SignatureCheck, start: World, acts: seq<Action>, end: World, n: nat,
                           key: string)
    requires n <= |acts|
  {
    || key in start.store.nonces
    || (exists i :: 0 <= i < n && RecordsAt(acts, i, key))
    || exists k :: 0 <= k < n && Fires(check, start, acts, end, k) && Carries(check, start, acts, k, key)
  }

  lemma ExpectedNext(check: Envelope -> SignatureCheck, start: World, acts: seq<Action>, end: World, n: nat, key: string)
    requires n < |acts|
    ensures Expected(check, start, acts, end, n + 1, key) <==>
            || Expected(check, start, acts, end, n, key)
            || RecordsAt(acts, n, key)
            || (Fires(check, start, acts, end, n) && Carries(check, start, acts, n, key))
  {
    if i :| 0 <= i < n && RecordsAt(acts, i, key) {
    }
    if k :| 0 <= k < n && Fires(check, start, acts, end, k) && Carries(check, start, acts, k, key) {
    }
  }

  /** The replay before action n, against the run. */
  ghost predicate Tracks(check: Envelope -> SignatureCheck, start: World, acts: seq<Action>, end: World, n: nat,
                         s: StoreState)
    requires n <= |acts|
  {
    && SameButNonces(s, At(check, start, acts, n).store)
    && forall key :: key in s.nonces <==> Expected(check, start, acts, end, n, key)
  }

  /** An accepted call has consumed all it carries. */
  lemma WinnerConsumed(check: Envelope -> SignatureCheck, start: World, acts: seq<Action>, end: World, k: nat, key: string)
    requires Initial(start) && end == At(check, start, acts, |acts|) && k < |acts|
    requires Fires(check, start, acts, end, k) && Carries(check, start, acts, k, key)
    ensures Consumed(end, acts[k].id, key)
  {
    var id := acts[k].id;
    RunKeepsInv(check, start, acts, |acts|);
    RunIsLater(check, start, acts, k, |acts|);
    assert CallInv(check, end, end.calls[id]);
    var caps := end.calls[id].Caps();
    var j :| 0 <= j < |caps| && NonceKey(caps[j].nonce) == key;
    assert KeyOf(end.calls[id].env, j) == key;
  }

  lemma NoEarlierWinner(check: Envelope -> SignatureCheck, start: World, acts: seq<Action>, end: World, l: nat, k: nat,
                        key: string)
    requires Initial(start) && end == At(check, start, acts, |acts|) && l < k < |acts|
    requires Fires(check, start, acts, end, l)
    requires Fires(check, start, acts, end, k) && Carries(check, start, acts, k, key)
    ensures !Carries(check, start, acts, l, key)
  {
    RunKeepsInv(check, start, acts, |acts|);
    WinnerConsumed(check, start, acts, end, k, key);
    if Carries(check, start, acts, l, key) {
      WinnerConsumed(check, start, acts, end, l, key);
      SigilCheckOnce(check, start, acts, l, k, acts[k].id);
    }
  }

  /** What the call carries was neither there, nor recorded, nor carried by another accepted call before. */
  lemma WinnerIsFresh(check: Envelope -> SignatureCheck, start: World, acts: seq<Action>, end: World, k: nat, key: string)
    requires Initial(start) && end == At(check, start, acts, |acts|) && k < |acts|
    requires Fires(check, start, acts, end, k) && Carries(check, start, acts, k, key)
    requires key !in At(check, start, acts, k).store.nonces
    ensures !Expected(check, start, acts, end, k, key)
  {
    NonceAccounting(check, start, acts, k, key);
    AnyRecords(acts, k, key);
    forall l | 0 <= l < k && Fires(check, start, acts, end, l) ensures !Carries(check, start, acts, l, key) {
      NoEarlierWinner(check, start, acts, end, l, k, key);
    }
  }

  /** The same check on a store that has the same revocations and none of the nonces. */
  lemma AcceptsElsewhere(check: Envelope -> SignatureCheck, s: StoreState, t: StoreState, env: Envelope, now: nat -> int)
    requires Verify(check, s, env, now).result == Accepted && t.revoked == s.revoked
    requires t.nonces !! Keys(env.caps.Items(), |env.caps.Items()|)
    ensures Verify(check, t, env, now).result == Accepted
    ensures Verify(check, t, env, now).store ==
            t.(nonces := t.nonces + Keys(env.caps.Items(), |env.caps.Items()|))
  {
    var caps := env.caps.Items();
    VerifyMeaning(check, s, env, now);
    VerifyMeaning(check, t, env, now);
    forall j | 0 <= j < |caps| ensures Sound(t, caps, now, j) {
      assert Sound(s, caps, now, j);
      assert NonceKey(caps[j].nonce) in Keys(caps, |caps|);
    }
  }

  /** What the linearization point says of an accepted call. */
  lemma WinnerAtCheck(check: Envelope -> SignatureCheck, start: World, acts: seq<Action>, end: World, k: nat)
    requires Initial(start) && end == At(check, start, acts, |acts|) && k < |acts| && Fires(check, start, acts, end, k)
    ensures var w := At(check, start, acts, k);
            var env := w.calls[acts[k].id].env;
            && Verify(check, w.store, env, Clocks(w)).result == Accepted
            && w.store.nonces !! Keys(env.caps.Items(), |env.caps.Items()|)
  {
    var l := AcceptedHasLinearizationPoint(check, start, acts, acts[k].id);
    SigilCheckOnce(check, start, acts, k, l, acts[k].id);
  }

  lemma FiringAccepts(check: Envelope -> SignatureCheck, start: World, acts: seq<Action>, end: World, k: nat, s: StoreState)
    requires Initial(start) && end == At(check, start, acts, |acts|) && k < |acts| && Fires(check, start, acts, end, k)
    requires Tracks(check, start, acts, end, k, s)
    ensures var w := At(check, start, acts, k);
            var env := w.calls[acts[k].id].env;
            && Verify(check, s, env, Clocks(w)).result == Accepted
            && Verify(check, s, env, Clocks(w)).store == s.(nonces := s.nonces + Keys(env.caps.Items(), |env.caps.Items()|))
  {
    var w := At(check, start, acts, k);
    var env := w.calls[acts[k].id].env;
    var keys := Keys(env.caps.Items(), |env.caps.Items()|);
    WinnerAtCheck(check, start, acts, end, k);
    forall key | key in keys ensures key !in s.nonces {
      assert Carries(check, start, acts, k, key);
      WinnerIsFresh(check, start, acts, end, k, key);
    }
    AcceptsElsewhere(check, w.store, s, env, Clocks(w));
  }

  lemma StepStore(check: Envelope -> SignatureCheck, w: World, a: Action)
    ensures if a.Traffic? then Next(check, w, a).store == Apply(w.store, a.op)
            else SameButNonces(Next(check, w, a).store, w.store)
  {
  }

  lemma ApplySame(s: StoreState, t: StoreState, op: StoreOp)
    requires SameButNonces(s, t)
    ensures SameButNonces(Apply(s, op), Apply(t, op))
    ensures forall key :: key in Apply(s, op).nonces <==> key in s.nonces || op.Records(key)
  {
  }

  lemma TracksNext(check: Envelope -> SignatureCheck, start: World, acts: seq<Action>, end: World, n: nat,
                   s: StoreState, t: StoreState)
    requires Initial(start) && end == At(check, start, acts, |acts|) && n < |acts| && Tracks(check, start, acts, end, n, s)
    requires t == ReplayStep(check, s, At(check, start, acts, n), acts[n], Fires(check, start, acts, end, n))
    ensures Tracks(check, start, acts, end, n + 1, t)
  {
    var w, a := At(check, start, acts, n), acts[n];
    StepStore(check, w, a);
    if a.Traffic? {
      ApplySame(s, w.store, a.op);
    } else if Fires(check, start, acts, end, n) {
      FiringAccepts(check, start, acts, end, n, s);
    }
    forall key ensures key in t.nonces <==> Expected(check, start, acts, end, n + 1, key) {
      ExpectedNext(check, start, acts, end, n, key);
    }
  }

  lemma {:induction false} ReplayTracks(check: Envelope -> SignatureCheck, start: World, acts: seq<Action>, end: World,
                                        n: nat)
    requires Initial(start) && end == At(check, start, acts, |acts|) && n <= |acts|
    ensures Tracks(check, start, acts, end, n, Replay(check, start, acts, end, n))
  {
    if n > 0 {
      var s, t := Replay(check, start, acts, end, n - 1), Replay(check, start, acts, end, n);
      assert Tracks(check, start, acts, end, n - 1, s) by {
        ReplayTracks(check, start, acts, end, n - 1);
      }
      TracksNext(check, start, acts, end, n - 1, s, t);
    }
  }

  // ----- The theorem -----

  /** Every accepted call is accepted by the replay too, where it read the revocation state of its sigil. */
  lemma ReplayAccepts(check: Envelope -> SignatureCheck, start: World, acts: seq<Action>, id: nat) returns (k: nat)
    requires Initial(start) && Wins(At(check, start, acts, |acts|), id)
    ensures k < |acts| && SigilCheckAt(check, start, acts, k, id)
    ensures var end, w := At(check, start, acts, |acts|), At(check, start, acts, k);
            && w.calls[id].env == end.calls[id].env
            && Verify(check, Replay(check, start, acts, end, k), w.calls[id].env, Clocks(w)).result == Accepted
  {
    k := AcceptedHasLinearizationPoint(check, start, acts, id);
    var end := At(check, start, acts, |acts|);
    ReplayTracks(check, start, acts, end, k);
    FiringAccepts(check, start, acts, end, k, Replay(check, start, acts, end, k));
  }

  /** The key was consumed by a call that was accepted, or by one that was not. */
  ghost predicate ConsumedBy(end: World, key: string, accepted: bool) {
    exists c :: Consumed(end, c, key) && Wins(end, c) == accepted
  }

  lemma CarriedIsConsumed(check: Envelope -> SignatureCheck, start: World, acts: seq<Action>, end: World, key: string)
    requires Initial(start) && end == At(check, start, acts, |acts|)
    ensures (exists k :: 0 <= k < |acts| && Fires(check, start, acts, end, k) && Carries(check, start, acts, k, key)) <==>
            ConsumedBy(end, key, true)
  {
    if k :| 0 <= k < |acts| && Fires(check, start, acts, end, k) && Carries(check, start, acts, k, key) {
      WinnerConsumed(check, start, acts, end, k, key);
    }
    if c :| Consumed(end, c, key) && Wins(end, c) {
      var k := FindSigilCheck(check, start, acts, |acts|, c);
      assert Fires(check, start, acts, end, k);
      var j :| 0 <= j < end.calls[c].next <= |end.calls[c].Caps()| && KeyOf(end.calls[c].env, j) == key;
      assert NonceKey(end.calls[c].Caps()[j].nonce) == key;
      assert Carries(check, start, acts, k, key);
    }
  }

  /**
   The replay ends with the same sigils, caps and revocations as the run, and
   with the nonces of the start, of the other traffic and of the accepted calls;
   the run has those and what the calls that were not accepted consumed.
   */
  lemma ReplayEnds(check: Envelope -> SignatureCheck, start: World, acts: seq<Action>, end: World)
    requires Initial(start) && end == At(check, start, acts, |acts|)
    ensures var s := Replay(check, start, acts, end, |acts|);
            && SameButNonces(s, end.store)
            && (forall key :: key in s.nonces <==>
                  || key in start.store.nonces
                  || (exists i :: 0 <= i < |acts| && RecordsAt(acts, i, key))
                  || ConsumedBy(end, key, true))
            && forall key :: key in end.store.nonces <==> key in s.nonces || ConsumedBy(end, key, false)
  {
    ReplayTracks(check, start, acts, end, |acts|);
    forall key
      ensures key in Replay(check, start, acts, end, |acts|).nonces <==>
              || key in start.store.nonces
              || (exists i :: 0 <= i < |acts| && RecordsAt(acts, i, key))
              || ConsumedBy(end, key, true)
    {
      CarriedIsConsumed(check, start, acts, end, key);
    }
    forall key ensures Accounted(start, acts, |acts|, end, key) <==>
                       || key in start.store.nonces
                       || (exists i :: 0 <= i < |acts| && RecordsAt(acts, i, key))
                       || ConsumedBy(end, key, true) || ConsumedBy(end, key, false)
    {
      AccountedBy(start, acts, end, key);
    }
    forall key ensures key in end.store.nonces <==> Accounted(start, acts, |acts|, end, key) {
      NonceAccounting(check, start, acts, |acts|, key);
    }
  }

  lemma EitherWay(end: World, key: string)
    ensures (exists c :: Consumed(end, c, key)) <==> ConsumedBy(end, key, true) || ConsumedBy(end, key, false)
  {
    if c :| Consumed(end, c, key) {
      assert Consumed(end, c, key) && Wins(end, c) == Wins(end, c);
      if Wins(end, c) {
        assert ConsumedBy(end, key, true);
      } else {
        assert ConsumedBy(end, key, false);
      }
    }
  }

  lemma AccountedBy(start: World, acts: seq<Action>, end: World, key: string)
    ensures Accounted(start, acts, |acts|, end, key) <==>
            || key in start.store.nonces
            || (exists i :: 0 <= i < |acts| && RecordsAt(acts, i, key))
            || ConsumedBy(end, key, true) || ConsumedBy(end, key, false)
  {
    EitherWay(end, key);
    AnyRecords(acts, |acts|, key);
  }
}
