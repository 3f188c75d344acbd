/**
 When two calls can refuse each other. Nonces are consumed one by one, so each
 of two calls can hold a nonce that the other still needs.
 */
module Crossing {
  import opened Protocol
  import opened Encoding
  import opened Store
  import opened Verification
  import opened Interleaving
  import opened VerifyTheorems

  // ----- Two envelopes that nothing else stands in the way of -----

  /** Its nonces are pairwise different and not among these. */
  predicate FreshNonces(env: Envelope, nonces: set<string>) {
    && (forall i, j :: 0 <= i < j < |env.caps.Items()| ==> KeyOf(env, i) != KeyOf(env, j))
    && forall i :: 0 <= i < |env.caps.Items()| ==> KeyOf(env, i) !in nonces
  }

  /** No traffic records its nonces and no call but these two consumes one. */
  ghost predicate OnlyTheirs(acts: seq<Action>, w: World, env: Envelope, a: nat, b: nat) {
    && (forall i, n :: 0 <= i < |env.caps.Items()| && 0 <= n < |acts| && acts[n].Traffic? ==>
          !acts[n].op.Records(KeyOf(env, i)))
    && forall i, c :: 0 <= i < |env.caps.Items()| && c in w.calls && c != a && c != b ==> !Consumed(w, c, KeyOf(env, i))
  }

  /**
   A run in which call a on e and call b on f have both returned, whatever else
   happened, with both envelopes clean to the end and their nonces used by
   nobody else.
   */
  ghost predicate Duel(check: Envelope -> SignatureCheck, start: World, acts: seq<Action>,
                       e: Envelope, f: Envelope, a: nat, b: nat)
  {
    var w := At(check, start, acts, |acts|);
    && Initial(start) && a != b && HasReturnedOn(w, a, e) && HasReturnedOn(w, b, f)
    && Clean(check, w, e) && FreshNonces(e, start.store.nonces) && OnlyTheirs(acts, w, e, a, b)
    && Clean(check, w, f) && FreshNonces(f, start.store.nonces) && OnlyTheirs(acts, w, f, a, b)
  }

  ghost predicate BothRefused(check: Envelope -> SignatureCheck, start: World, acts: seq<Action>, a: nat, b: nat) {
    var calls := At(check, start, acts, |acts|).calls;
    a in calls && b in calls && calls[a].pc != Returned(Accepted) && calls[b].pc != Returned(Accepted)
  }

  /** Nonce i of e comes before cap l in f and nonce l of f before cap i in e, with nothing shared before. */
  predicate Crosses(e: Envelope, f: Envelope, i: nat, l: nat) {
    && i < |e.caps.Items()| && l < |f.caps.Items()|
    && Keys(e.caps.Items(), i) !! Keys(f.caps.Items(), l)
    && KeyOf(e, i) in Keys(f.caps.Items(), l)
    && KeyOf(f, l) in Keys(e.caps.Items(), i)
  }

  // ----- Both refused, then crossed -----

  lemma KeyAt(env: Envelope, n: nat, key: string)
    requires n <= |env.caps.Items()|
    ensures key in Keys(env.caps.Items(), n) <==> exists j :: 0 <= j < n && KeyOf(env, j) == key
  {
    if key in Keys(env.caps.Items(), n) {
      var j :| 0 <= j < n && NonceKey(env.caps.Items()[j].nonce) == key;
      assert KeyOf(env, j) == key;
    }
  }

  /** The key that stopped call a was consumed by call b. */
  lemma StoppedByOther(check: Envelope -> SignatureCheck, start: World, acts: seq<Action>,
                       e: Envelope, f: Envelope, a: nat, b: nat)
    requires Duel(check, start, acts, e, f, a, b) || Duel(check, start, acts, f, e, b, a)
    requires At(check, start, acts, |acts|).calls[a].pc != Returned(Accepted)
    ensures var w := At(check, start, acts, |acts|);
            w.calls[a].next < |e.caps.Items()| && Consumed(w, b, KeyOf(e, w.calls[a].next))
  {
    var w := At(check, start, acts, |acts|);
    RunKeepsInv(check, start, acts, |acts|);
    CleanResult(check, w, a, e);
    var key := KeyOf(e, w.calls[a].next);
    NonceAccounting(check, start, acts, |acts|, key);
    var c :| Consumed(w, c, key);
    assert !Consumed(w, a, key);
  }

  lemma ConsumedIsInPrefix(check: Envelope -> SignatureCheck, w: World, id: nat, env: Envelope, key: string)
    requires Inv(check, w) && id in w.calls && w.calls[id].env == env
    ensures w.calls[id].next <= |env.caps.Items()|
    ensures Consumed(w, id, key) <==> key in Keys(env.caps.Items(), w.calls[id].next)
  {
    assert CallInv(check, w, w.calls[id]);
    KeyAt(env, w.calls[id].next, key);
  }

  lemma PrefixesDisjoint(check: Envelope -> SignatureCheck, w: World, a: nat, b: nat, e: Envelope, f: Envelope)
    requires Inv(check, w) && a != b && a in w.calls && b in w.calls && w.calls[a].env == e && w.calls[b].env == f
    ensures w.calls[a].next <= |e.caps.Items()| && w.calls[b].next <= |f.caps.Items()|
    ensures Keys(e.caps.Items(), w.calls[a].next) !! Keys(f.caps.Items(), w.calls[b].next)
  {
    ConsumedIsInPrefix(check, w, a, e, "");
    ConsumedIsInPrefix(check, w, b, f, "");
    var x, y := Keys(e.caps.Items(), w.calls[a].next), Keys(f.caps.Items(), w.calls[b].next);
    forall key | key in x ensures key !in y {
      ConsumedIsInPrefix(check, w, a, e, key);
      ConsumedIsInPrefix(check, w, b, f, key);
    }
  }

  lemma RefusedThenCrossed(check: Envelope -> SignatureCheck, start: World, acts: seq<Action>,
                           e: Envelope, f: Envelope, a: nat, b: nat)
    requires Duel(check, start, acts, e, f, a, b) && BothRefused(check, start, acts, a, b)
    ensures var calls := At(check, start, acts, |acts|).calls;
            Crosses(e, f, calls[a].next, calls[b].next)
  {
    var w := At(check, start, acts, |acts|);
    RunKeepsInv(check, start, acts, |acts|);
    StoppedByOther(check, start, acts, e, f, a, b);
    StoppedByOther(check, start, acts, f, e, b, a);
    PrefixesDisjoint(check, w, a, b, e, f);
    ConsumedIsInPrefix(check, w, b, f, KeyOf(e, w.calls[a].next));
    ConsumedIsInPrefix(check, w, a, e, KeyOf(f, w.calls[b].next));
  }

  // ----- Crossed, then some run refuses both -----

  /** No store traffic from outside. */
  predicate Quiet(acts: seq<Action>) {
    forall n :: 0 <= n < |acts| ==> !acts[n].Traffic?
  }

  /** The run gets here, quietly. */
  ghost predicate Reaches(check: Envelope -> SignatureCheck, start: World, acts: seq<Action>, w: World) {
    At(check, start, acts, |acts|) == w && Quiet(acts)
  }

  lemma {:induction false} AtPrefix(check: Envelope -> SignatureCheck, start: World, acts: seq<Action>,
                                    more: seq<Action>, n: nat)
    requires n <= |acts|
    ensures At(check, start, acts + more, n) == At(check, start, acts, n)
  {
    if n > 0 {
      AtPrefix(check, start, acts, more, n - 1);
    }
  }

  /** Runs can be prolonged by any action. */
  lemma Then(check: Envelope -> SignatureCheck, start: World, acts: seq<Action>, w: World, a: Action)
    returns (more: seq<Action>)
    requires Reaches(check, start, acts, w) && !a.Traffic?
    ensures Reaches(check, start, more, Next(check, w, a))
  {
    more := acts + [a];
    AtPrefix(check, start, acts, [a], |acts|);
  }

  /** Where a call stands. */
  function Put(w: World, id: nat, env: Envelope, pc: Pc, next: nat): World {
    w.(calls := w.calls[id := Call(env, pc, next)])
  }

  /** Three steps bring a clean call to its first cap. */
  lemma Opens(check: Envelope -> SignatureCheck, start: World, acts: seq<Action>, w: World, id: nat, env: Envelope)
    returns (more: seq<Action>)
    requires Reaches(check, start, acts, w) && Clean(check, w, env) && env.caps.Items() != []
    requires id in w.calls && w.calls[id] == Call(env, AtSignature, 0)
    ensures Reaches(check, start, more, Put(w, id, env, AtCapRevocation, 0))
  {
    more := Then(check, start, acts, w, Step(id));
    var w1 := Put(w, id, env, AtSigil, 0);
    more := Then(check, start, more, w1, Step(id));
    var w2 := Put(w1, id, env, AtEnvelopeExpiry, 0);
    assert w2 == Put(w, id, env, AtEnvelopeExpiry, 0);
    more := Then(check, start, more, w2, Step(id));
    assert Put(w2, id, env, AtCapRevocation, 0) == Put(w, id, env, AtCapRevocation, 0);
  }

  /** Two more bring it to the nonce of a cap. */
  lemma ComesToNonce(check: Envelope -> SignatureCheck, start: World, acts: seq<Action>, w: World, id: nat,
                     env: Envelope, i: nat)
    returns (more: seq<Action>)
    requires Reaches(check, start, acts, w) && Clean(check, w, env) && i < |env.caps.Items()|
    requires id in w.calls && w.calls[id] == Call(env, AtCapRevocation, i)
    ensures Reaches(check, start, more, Put(w, id, env, AtNonce, i))
  {
    more := Then(check, start, acts, w, Step(id));
    var w1 := Put(w, id, env, AtCapExpiry, i);
    more := Then(check, start, more, w1, Step(id));
    assert Put(w1, id, env, AtNonce, i) == Put(w, id, env, AtNonce, i);
  }

  lemma IsRefused(check: Envelope -> SignatureCheck, start: World, acts: seq<Action>, w: World, id: nat,
                  env: Envelope, i: nat)
    returns (more: seq<Action>)
    requires Reaches(check, start, acts, w) && Clean(check, w, env) && i < |env.caps.Items()|
    requires id in w.calls && w.calls[id] == Call(env, AtCapRevocation, i) && KeyOf(env, i) in w.store.nonces
    ensures Reaches(check, start, more, Put(w, id, env, Returned(ReplayAttack), i))
  {
    more := ComesToNonce(check, start, acts, w, id, env, i);
    var w1 := Put(w, id, env, AtNonce, i);
    more := Then(check, start, more, w1, Step(id));
    assert w.store.nonces + {KeyOf(env, i)} == w.store.nonces;
    assert Put(w1, id, env, Returned(ReplayAttack), i) == Put(w, id, env, Returned(ReplayAttack), i);
  }

  /** The world in which the call has consumed its first i nonces and stands at the next cap. */
  function Held(w: World, id: nat, env: Envelope, i: nat): World
    requires i <= |env.caps.Items()|
  {
    Put(w.(store := w.store.(nonces := w.store.nonces + Keys(env.caps.Items(), i))), id, env, AtCapRevocation, i)
  }

  lemma HeldNext(check: Envelope -> SignatureCheck, w: World, id: nat, env: Envelope, i: nat)
    requires i + 1 < |env.caps.Items()| && KeyOf(env, i) !in w.store.nonces + Keys(env.caps.Items(), i)
    ensures Next(check, Put(Held(w, id, env, i), id, env, AtNonce, i), Step(id)) == Held(w, id, env, i + 1)
  {
    var v := Put(Held(w, id, env, i), id, env, AtNonce, i);
    RecordKey(w.store, env.caps.Items(), i);
    assert v.calls[id] == Call(env, AtNonce, i);
    assert v.calls[id := Call(env, AtCapRevocation, i + 1)] == w.calls[id := Call(env, AtCapRevocation, i + 1)];
  }

  lemma NextIsFresh(env: Envelope, i: nat, nonces: set<string>)
    requires i < |env.caps.Items()| && KeyOf(env, i) !in nonces
    requires forall j :: 0 <= j < i ==> KeyOf(env, j) != KeyOf(env, i)
    ensures KeyOf(env, i) !in nonces + Keys(env.caps.Items(), i)
  {
    KeyAt(env, i, KeyOf(env, i));
  }

  lemma {:induction false} ConsumesUpTo(check: Envelope -> SignatureCheck, start: World, acts: seq<Action>, w: World,
                                        id: nat, env: Envelope, i: nat)
    returns (more: seq<Action>)
    requires Reaches(check, start, acts, w) && Clean(check, w, env) && i < |env.caps.Items()|
    requires id in w.calls && w.calls[id] == Call(env, AtCapRevocation, 0)
    requires forall j, k :: 0 <= j < k < i ==> KeyOf(env, j) != KeyOf(env, k)
    requires forall j :: 0 <= j < i ==> KeyOf(env, j) !in w.store.nonces
    ensures Reaches(check, start, more, Held(w, id, env, i))
    decreases i
  {
    if i == 0 {
      more := acts;
      assert w.store.nonces + Keys(env.caps.Items(), 0) == w.store.nonces;
      assert w.calls[id := Call(env, AtCapRevocation, 0)] == w.calls;
    } else {
      var k := i - 1;
      more := ConsumesUpTo(check, start, acts, w, id, env, k);
      NextIsFresh(env, k, w.store.nonces);
      var v := Held(w, id, env, k);
      more := ComesToNonce(check, start, more, v, id, env, k);
      more := Then(check, start, more, Put(v, id, env, AtNonce, k), Step(id));
      HeldNext(check, w, id, env, k);
    }
  }

  /** Both calls stand at their first cap. */
  lemma BothOpen(check: Envelope -> SignatureCheck, start: World, e: Envelope, f: Envelope) returns (acts: seq<Action>)
    requires Initial(start) && Clean(check, start, e) && Clean(check, start, f)
    requires e.caps.Items() != [] && f.caps.Items() != []
    ensures Reaches(check, start, acts, Put(Put(start, 0, e, AtCapRevocation, 0), 1, f, AtCapRevocation, 0))
  {
    acts := Then(check, start, [], start, Begin(0, e));
    var w := Put(start, 0, e, AtSignature, 0);
    acts := Opens(check, start, acts, w, 0, e);
    var x := Put(start, 0, e, AtCapRevocation, 0);
    assert Put(w, 0, e, AtCapRevocation, 0) == x;
    acts := Then(check, start, acts, x, Begin(1, f));
    var y := Put(x, 1, f, AtSignature, 0);
    acts := Opens(check, start, acts, y, 1, f);
    assert Put(y, 1, f, AtCapRevocation, 0) == Put(x, 1, f, AtCapRevocation, 0);
  }

  /** Each holds the nonces that come before the crossing. */
  lemma BothHold(check: Envelope -> SignatureCheck, start: World, e: Envelope, f: Envelope, i: nat, l: nat, w: World)
    returns (acts: seq<Action>)
    requires Initial(start) && Clean(check, start, e) && Clean(check, start, f)
    requires FreshNonces(e, start.store.nonces) && FreshNonces(f, start.store.nonces) && Crosses(e, f, i, l)
    requires w == Put(Put(start, 0, e, AtCapRevocation, 0), 1, f, AtCapRevocation, 0)
    ensures Reaches(check, start, acts, Held(Held(w, 0, e, i), 1, f, l))
  {
    acts := BothOpen(check, start, e, f);
    acts := ConsumesUpTo(check, start, acts, w, 0, e, i);
    var v := Held(w, 0, e, i);
    forall j | 0 <= j < l ensures KeyOf(f, j) !in v.store.nonces {
      KeyAt(f, l, KeyOf(f, j));
    }
    acts := ConsumesUpTo(check, start, acts, v, 1, f, l);
  }

  /** The world at the end of the schedule. */
  function Refused(v: World, e: Envelope, f: Envelope, i: nat, l: nat): World {
    Put(Put(v, 0, e, Returned(ReplayAttack), i), 1, f, Returned(ReplayAttack), l)
  }

  lemma ThenBothAreRefused(check: Envelope -> SignatureCheck, start: World, acts: seq<Action>, v: World,
                           e: Envelope, f: Envelope, i: nat, l: nat)
    returns (more: seq<Action>)
    requires Reaches(check, start, acts, v) && Clean(check, v, e) && Clean(check, v, f)
    requires i < |e.caps.Items()| && l < |f.caps.Items()|
    requires v.calls == map[0 := Call(e, AtCapRevocation, i), 1 := Call(f, AtCapRevocation, l)]
    requires KeyOf(e, i) in v.store.nonces && KeyOf(f, l) in v.store.nonces
    ensures Reaches(check, start, more, Refused(v, e, f, i, l))
  {
    more := IsRefused(check, start, acts, v, 0, e, i);
    more := IsRefused(check, start, more, Put(v, 0, e, Returned(ReplayAttack), i), 1, f, l);
  }

  lemma QuietIsTheirs(acts: seq<Action>, w: World, env: Envelope)
    requires Quiet(acts) && w.calls.Keys == {0, 1}
    ensures OnlyTheirs(acts, w, env, 0, 1)
  {
  }

  /** The schedule: each call consumes what comes before the crossing, then each asks for what the other holds. */
  lemma CrossedThenRefused(check: Envelope -> SignatureCheck, start: World, e: Envelope, f: Envelope, i: nat, l: nat)
    returns (acts: seq<Action>)
    requires Initial(start) && Clean(check, start, e) && Clean(check, start, f)
    requires FreshNonces(e, start.store.nonces) && FreshNonces(f, start.store.nonces) && Crosses(e, f, i, l)
    ensures Duel(check, start, acts, e, f, 0, 1) && BothRefused(check, start, acts, 0, 1)
  {
    var w := Put(Put(start, 0, e, AtCapRevocation, 0), 1, f, AtCapRevocation, 0);
    var v := Held(Held(w, 0, e, i), 1, f, l);
    acts := BothHold(check, start, e, f, i, l, w);
    assert v.calls == map[0 := Call(e, AtCapRevocation, i), 1 := Call(f, AtCapRevocation, l)];
    acts := ThenBothAreRefused(check, start, acts, v, e, f, i, l);
    var x := Refused(v, e, f, i, l);
    assert x.calls.Keys == {0, 1};
    QuietIsTheirs(acts, x, e);
    QuietIsTheirs(acts, x, f);
  }

  // ----- The exact condition -----

  lemma AcceptableAlone(check: Envelope -> SignatureCheck, w: World, env: Envelope, now: nat -> int)
    requires Clean(check, w, env) && FreshNonces(env, w.store.nonces) && forall k :: now(k) == w.clock
    ensures Verify(check, w.store, env, now).result == Accepted
  {
    var caps := env.caps.Items();
    forall j | 0 <= j < |caps| ensures Sound(w.store, caps, now, j) {
      NextIsFresh(env, j, w.store.nonces);
    }
    VerifyMeaning(check, w.store, env, now);
  }

  /**
   Two clean envelopes with fresh nonces, each acceptable when the run starts:
   some run refuses both, although no call but these two touches their nonces,
   if and only if they cross.
   */
  lemma RefusesBothExactly(check: Envelope -> SignatureCheck, start: World, e: Envelope, f: Envelope, now: nat -> int)
    requires Initial(start) && Clean(check, start, e) && Clean(check, start, f) && forall k :: now(k) == start.clock
    requires FreshNonces(e, start.store.nonces) && FreshNonces(f, start.store.nonces)
    ensures Verify(check, start.store, e, now).result == Accepted
    ensures Verify(check, start.store, f, now).result == Accepted
    ensures (exists acts, a, b :: Duel(check, start, acts, e, f, a, b) && BothRefused(check, start, acts, a, b)) <==>
            exists i, l :: Crosses(e, f, i, l)
  {
    AcceptableAlone(check, start, e, now);
    AcceptableAlone(check, start, f, now);
    if acts, a, b :| Duel(check, start, acts, e, f, a, b) && BothRefused(check, start, acts, a, b) {
      RefusedThenCrossed(check, start, acts, e, f, a, b);
    }
    if i, l :| Crosses(e, f, i, l) {
      var acts := CrossedThenRefused(check, start, e, f, i, l);
    }
  }

  // ----- Every other outcome is a sequential one -----

  /** Where the loop ends, from the caps that are sound before it. */
  lemma StopsExactlyAt(check: Envelope -> SignatureCheck, s: StoreState, env: Envelope, now: nat -> int, l: nat)
    requires check(env) == Good && env.sigilId !in s.revoked && now(0) <= env.expiresAt.nanos && l <= |env.caps.Items()|
    requires forall j :: 0 <= j < l ==> Sound(s, env.caps.Items(), now, j)
    requires l == |env.caps.Items()| || !Sound(s, env.caps.Items(), now, l)
    ensures var o := Verify(check, s, env, now);
            && o.used == l && o.store == s.(nonces := s.nonces + Keys(env.caps.Items(), l))
            && if l == |env.caps.Items()| then o.result == Accepted else StopsWith(s, env.caps.Items(), now, l, o.result)
  {
    VerifyMeaning(check, s, env, now);
  }

  /** The two calls ended as if the first had run to its end before the second began. */
  ghost predicate InTurn(check: Envelope -> SignatureCheck, s: StoreState, now: nat -> int, e: Envelope, f: Envelope,
                         x: Call, y: Call)
  {
    var o := Verify(check, s, e, now);
    var p := Verify(check, o.store, f, now);
    x.pc == Returned(o.result) && x.next == o.used && y.pc == Returned(p.result) && y.next == p.used
  }

  lemma CleanBefore(check: Envelope -> SignatureCheck, v: World, w: World, env: Envelope)
    requires Later(v, w) && Clean(check, w, env)
    ensures Clean(check, v, env)
  {
  }

  /** How the second call fares after the first has consumed these nonces. */
  lemma SecondInTurn(check: Envelope -> SignatureCheck, s: StoreState, clock: int, f: Envelope, now: nat -> int,
                     taken: set<string>, y: Call)
    requires forall k :: now(k) == clock
    requires check(f) == Good && f.sigilId !in s.revoked && clock <= f.expiresAt.nanos
    requires forall i :: 0 <= i < |f.caps.Items()| ==>
               f.caps.Items()[i].id !in s.revoked && clock <= f.caps.Items()[i].expiresAt.nanos
    requires FreshNonces(f, s.nonces) && y.next <= |f.caps.Items()| && taken !! Keys(f.caps.Items(), y.next)
    requires if y.next == |f.caps.Items()| then y.pc == Returned(Accepted)
             else y.pc == Returned(ReplayAttack) && KeyOf(f, y.next) in taken
    ensures var p := Verify(check, s.(nonces := s.nonces + taken), f, now);
            y.pc == Returned(p.result) && y.next == p.used
  {
    var t := s.(nonces := s.nonces + taken);
    var caps := f.caps.Items();
    forall j | 0 <= j < y.next ensures Sound(t, caps, now, j) {
      KeyAt(f, y.next, KeyOf(f, j));
      NextIsFresh(f, j, t.nonces);
    }
    StopsExactlyAt(check, t, f, now, y.next);
  }

  lemma OtherFaresInTurn(check: Envelope -> SignatureCheck, start: World, acts: seq<Action>,
                         e: Envelope, f: Envelope, a: nat, b: nat, w: World)
    requires Duel(check, start, acts, e, f, a, b) && w == At(check, start, acts, |acts|)
    requires w.calls[a].pc == Returned(Accepted)
    ensures w.calls[a].next == |e.caps.Items()| && w.calls[b].next <= |f.caps.Items()|
    ensures Keys(e.caps.Items(), |e.caps.Items()|) !! Keys(f.caps.Items(), w.calls[b].next)
    ensures if w.calls[b].next == |f.caps.Items()| then w.calls[b].pc == Returned(Accepted)
            else w.calls[b].pc == Returned(ReplayAttack) &&
                 KeyOf(f, w.calls[b].next) in Keys(e.caps.Items(), |e.caps.Items()|)
  {
    RunKeepsInv(check, start, acts, |acts|);
    CleanResult(check, w, a, e);
    CleanResult(check, w, b, f);
    PrefixesDisjoint(check, w, a, b, e, f);
    if w.calls[b].pc == Returned(ReplayAttack) {
      StoppedByOther(check, start, acts, f, e, b, a);
      ConsumedIsInPrefix(check, w, a, e, KeyOf(f, w.calls[b].next));
    }
  }

  lemma AcceptedFirst(check: Envelope -> SignatureCheck, start: World, acts: seq<Action>,
                      e: Envelope, f: Envelope, a: nat, b: nat, now: nat -> int)
    requires Duel(check, start, acts, e, f, a, b) && forall k :: now(k) == start.clock
    requires At(check, start, acts, |acts|).calls[a].pc == Returned(Accepted)
    ensures var calls := At(check, start, acts, |acts|).calls;
            InTurn(check, start.store, now, e, f, calls[a], calls[b])
  {
    var w := At(check, start, acts, |acts|);
    var caps := e.caps.Items();
    RunIsLater(check, start, acts, 0, |acts|);
    CleanBefore(check, start, w, e);
    CleanBefore(check, start, w, f);
    OtherFaresInTurn(check, start, acts, e, f, a, b, w);
    forall j | 0 <= j < |caps| ensures Sound(start.store, caps, now, j) {
      NextIsFresh(e, j, start.store.nonces);
    }
    StopsExactlyAt(check, start.store, e, now, |caps|);
    SecondInTurn(check, start.store, start.clock, f, now, Keys(caps, |caps|), w.calls[b]);
  }

  /**
   Whenever the two do not refuse each other, both results and all consumption
   are those of the two calls made one after the other, in one of the two orders.
   */
  lemma OtherwiseInTurn(check: Envelope -> SignatureCheck, start: World, acts: seq<Action>,
                        e: Envelope, f: Envelope, a: nat, b: nat, now: nat -> int)
    requires Duel(check, start, acts, e, f, a, b) && !BothRefused(check, start, acts, a, b)
    requires forall k :: now(k) == start.clock
    ensures var calls := At(check, start, acts, |acts|).calls;
            || InTurn(check, start.store, now, e, f, calls[a], calls[b])
            || InTurn(check, start.store, now, f, e, calls[b], calls[a])
  {
    if At(check, start, acts, |acts|).calls[a].pc == Returned(Accepted) {
      AcceptedFirst(check, start, acts, e, f, a, b, now);
    } else {
      DuelEitherWay(check, start, acts, e, f, a, b);
      AcceptedFirst(check, start, acts, f, e, b, a, now);
    }
  }

  lemma DuelEitherWay(check: Envelope -> SignatureCheck, start: World, acts: seq<Action>,
                      e: Envelope, f: Envelope, a: nat, b: nat)
    requires Duel(check, start, acts, e, f, a, b)
    ensures Duel(check, start, acts, f, e, b, a)
  {
  }

  /** Envelopes that cross: the same two nonces in opposite order. */
  lemma CrossingExists(e: Envelope, f: Envelope, x: CapabilityToken, y: CapabilityToken)
    requires x.nonce.Items() != y.nonce.Items()
    requires e.caps == Of([x, y]) && f.caps == Of([y, x])
    ensures FreshNonces(e, {}) && FreshNonces(f, {}) && Crosses(e, f, 1, 1)
  {
    if NonceKey(x.nonce) == NonceKey(y.nonce) {
      HexEncodeInjective(x.nonce.Items(), y.nonce.Items());
    }
    assert KeyOf(e, 0) == KeyOf(f, 1) == NonceKey(x.nonce) && KeyOf(e, 1) == KeyOf(f, 0) == NonceKey(y.nonce);
    assert Keys(e.caps.Items(), 1) == {KeyOf(e, 0)} && Keys(f.caps.Items(), 1) == {KeyOf(f, 0)};
  }

  /** Two calls on one envelope never refuse each other. */
  lemma SameEnvelopeNeverCrosses(check: Envelope -> SignatureCheck, start: World, acts: seq<Action>, e: Envelope,
                                 a: nat, b: nat)
    requires Duel(check, start, acts, e, e, a, b)
    ensures !BothRefused(check, start, acts, a, b)
  {
    if BothRefused(check, start, acts, a, b) {
      RefusedThenCrossed(check, start, acts, e, e, a, b);
    }
  }
}
