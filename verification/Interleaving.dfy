/**
 Concurrent verification as a transition system. Each store operation, each
 clock reading and each counter update is one atomic step of one call; between
 any two of them other calls, revocations, other store traffic and the clock may
 move. A run is any sequence of actions: one that is not enabled (a call id in
 use, a returned call, a clock going back) leaves the world as it is.
 */
module Interleaving {
  import opened Protocol
  import opened Store

  datatype Pc =
    | AtSignature
    | AtSigil
    | AtEnvelopeExpiry
    | AtCapRevocation
    | AtCapExpiry
    | AtNonce
    | AtAllowed
    | AtDenied(why: VerifyResult)
    | Returned(result: VerifyResult)

  /** The key of the nonce of cap i. */
  function KeyOf(env: Envelope, i: nat): string
    requires i < |env.caps.Items()|
  {
    NonceKey(env.caps.Items()[i].nonce)
  }

  /** `next` is the loop index: the nonces of the caps before it were consumed by this call. */
  datatype Call = Call(env: Envelope, pc: Pc, next: nat) {
    function Caps(): seq<CapabilityToken> {
      env.caps.Items()
    }

    /** The head of the loop over caps. */
    function LoopHead(): Call {
      this.(pc := if next < |Caps()| then AtCapRevocation else AtAllowed)
    }
  }

  /** The counters are 64-bit and wrap. */
  datatype World = World(store: StoreState, clock: int, calls: map<nat, Call>, allowed: nat, denied: nat)

  const COUNTER := 0x1_0000_0000_0000_0000

  datatype Action =
    | Begin(id: nat, env: Envelope)
    | Step(id: nat)
    | Tick(to: int)
    | Traffic(op: StoreOp)

  /** What one step of a call does to the call itself. */
  function StepCall(check: Envelope -> SignatureCheck, s: StoreState, clock: int, call: Call): Call {
    var caps, i := call.Caps(), call.next;
    match call.pc
    case AtSignature =>
      call.(pc := match check(call.env) case Unencodable => Returned(BodyError)
                                        case Bad => Returned(SignatureInvalid)
                                        case Good => AtSigil)
    case AtSigil =>
      call.(pc := if call.env.sigilId in s.revoked then AtDenied(SigilRevoked) else AtEnvelopeExpiry)
    case AtEnvelopeExpiry =>
      if clock > call.env.expiresAt.nanos then call.(pc := Returned(CapExpired)) else call.LoopHead()
    case AtCapRevocation =>
      call.(pc := if i < |caps| && caps[i].id in s.revoked then AtDenied(CapRevoked) else AtCapExpiry)
    case AtCapExpiry =>
      call.(pc := if i < |caps| && clock > caps[i].expiresAt.nanos then Returned(CapExpired) else AtNonce)
    case AtNonce =>
      if i < |caps| && KeyOf(call.env, i) in s.nonces then call.(pc := Returned(ReplayAttack))
      else call.(next := i + 1).LoopHead()
    case AtAllowed => call.(pc := Returned(Accepted))
    case AtDenied(why) => call.(pc := Returned(why))
    case Returned(_) => call
  }

  /** What the same step does to the shared world. */
  function StepWorld(check: Envelope -> SignatureCheck, w: World, id: nat): World
    requires id in w.calls
  {
    var call := w.calls[id];
    World(
      if call.pc == AtNonce && call.next < |call.Caps()|
      then Apply(w.store, TryRecordNonce(call.Caps()[call.next].nonce)) else w.store,
      w.clock,
      w.calls[id := StepCall(check, w.store, w.clock, call)],
      if call.pc == AtAllowed then (w.allowed + 1) % COUNTER else w.allowed,
      if call.pc.AtDenied? then (w.denied + 1) % COUNTER else w.denied)
  }

  function Next(check: Envelope -> SignatureCheck, w: World, a: Action): World {
    match a
    case Begin(id, env) => if id in w.calls then w else w.(calls := w.calls[id := Call(env, AtSignature, 0)])
    case Step(id) => if id in w.calls then StepWorld(check, w, id) else w
    case Tick(to) => if to < w.clock then w else w.(clock := to)
    case Traffic(op) => w.(store := Apply(w.store, op))
  }

  /** The world after the first n actions. */
  function At(check: Envelope -> SignatureCheck, start: World, acts: seq<Action>, n: nat): World
    requires n <= |acts|
  {
    if n == 0 then start else Next(check, At(check, start, acts, n - 1), acts[n - 1])
  }

  /** A broker that has just come up, over any store and at any time. */
  predicate Initial(w: World) {
    w.calls == map[] && w.allowed == 0 && w.denied == 0
  }

  /** What is known of one call from where it stands. */
  ghost predicate CallInv(check: Envelope -> SignatureCheck, w: World, call: Call) {
    var caps, i := call.Caps(), call.next;
    && i <= |caps|
    && (call.pc != AtSignature && call.pc != Returned(BodyError) && call.pc != Returned(SignatureInvalid) ==>
          check(call.env) == Good)
    && (forall j :: 0 <= j < i ==> KeyOf(call.env, j) in w.store.nonces)
    && (forall j, k :: 0 <= j < k < i ==> KeyOf(call.env, j) != KeyOf(call.env, k))
    && match call.pc
       case AtSignature | AtSigil | AtEnvelopeExpiry => i == 0
       case AtCapRevocation | AtCapExpiry | AtNonce => i < |caps|
       case AtAllowed => i == |caps|
       case AtDenied(r) => (r == SigilRevoked || r == CapRevoked) && Justified(check, w, call, r)
       case Returned(r) => Justified(check, w, call, r)
  }

  /** The reason for a result can still be read off the store, the clock and the place where the call stopped. */
  ghost predicate Justified(check: Envelope -> SignatureCheck, w: World, call: Call, r: VerifyResult) {
    var caps, i := call.Caps(), call.next;
    match r
    case Accepted => i == |caps|
    case BodyError => check(call.env) == Unencodable && i == 0
    case SignatureInvalid => check(call.env) == Bad && i == 0
    case SigilRevoked => call.env.sigilId in w.store.revoked && i == 0
    case CapRevoked => i < |caps| && caps[i].id in w.store.revoked
    case CapExpired => (i == 0 && w.clock > call.env.expiresAt.nanos) ||
                       (i < |caps| && w.clock > caps[i].expiresAt.nanos)
    case ReplayAttack => i < |caps| && KeyOf(call.env, i) in w.store.nonces
  }

  /** Call id has consumed the nonce under this key. */
  ghost predicate Consumed(w: World, id: nat, key: string) {
    id in w.calls && exists j :: 0 <= j < w.calls[id].next <= |w.calls[id].Caps()| && KeyOf(w.calls[id].env, j) == key
  }

  ghost predicate Inv(check: Envelope -> SignatureCheck, w: World) {
    && (forall c :: c in w.calls ==> CallInv(check, w, w.calls[c]))
    && (forall c, d, key :: Consumed(w, c, key) && Consumed(w, d, key) ==> c == d)
  }

  /** Time, revocation, consumption and every call's progress only move forward. */
  ghost predicate Later(v: World, w: World) {
    && Extends(v.store, w.store)
    && v.clock <= w.clock
    && forall c :: c in v.calls ==> c in w.calls && w.calls[c].env == v.calls[c].env && v.calls[c].next <= w.calls[c].next
  }

  lemma NextIsLater(check: Envelope -> SignatureCheck, w: World, a: Action)
    ensures Later(w, Next(check, w, a))
  {
  }

  lemma LaterTransitive(u: World, v: World, w: World)
    requires Later(u, v) && Later(v, w)
    ensures Later(u, w)
  {
  }

  lemma JustifiedPersists(check: Envelope -> SignatureCheck, v: World, w: World, call: Call)
    requires Later(v, w) && CallInv(check, v, call)
    ensures CallInv(check, w, call)
  {
  }

  /** The step that tests and sets a nonce. */
  lemma NonceKeepsCallInv(check: Envelope -> SignatureCheck, w: World, id: nat, x: World)
    requires id in w.calls && w.calls[id].pc == AtNonce && CallInv(check, w, w.calls[id]) && x == StepWorld(check, w, id)
    ensures CallInv(check, x, x.calls[id])
  {
  }

  /** All the other steps leave the store alone. */
  lemma OtherKeepsCallInv(check: Envelope -> SignatureCheck, w: World, id: nat, x: World)
    requires id in w.calls && w.calls[id].pc != AtNonce && CallInv(check, w, w.calls[id]) && x == StepWorld(check, w, id)
    ensures CallInv(check, x, x.calls[id])
  {
  }

  lemma StepKeepsCallInv(check: Envelope -> SignatureCheck, w: World, id: nat)
    requires id in w.calls && CallInv(check, w, w.calls[id])
    ensures CallInv(check, StepWorld(check, w, id), StepWorld(check, w, id).calls[id])
  {
    if w.calls[id].pc == AtNonce {
      NonceKeepsCallInv(check, w, id, StepWorld(check, w, id));
    } else {
      OtherKeepsCallInv(check, w, id, StepWorld(check, w, id));
    }
  }

  lemma ConsumedIsStored(check: Envelope -> SignatureCheck, w: World, id: nat, key: string)
    requires Inv(check, w) && Consumed(w, id, key)
    ensures key in w.store.nonces
  {
  }

  /** A step can only add the key at its own index, and only when that key was fresh. */
  lemma StepConsumes(check: Envelope -> SignatureCheck, w: World, id: nat, c: nat, key: string)
    requires Inv(check, w) && id in w.calls && Consumed(StepWorld(check, w, id), c, key)
    ensures Consumed(w, c, key) || (c == id && key !in w.store.nonces)
  {
    if c == id && !Consumed(w, c, key) {
      var call := w.calls[id];
      var j :| 0 <= j < StepCall(check, w.store, w.clock, call).next <= |call.Caps()| && KeyOf(call.env, j) == key;
      assert j == call.next;
    }
  }

  lemma NextKeepsCall(check: Envelope -> SignatureCheck, w: World, a: Action, x: World, c: nat)
    requires x == Next(check, w, a) && c in x.calls && (c in w.calls ==> CallInv(check, w, w.calls[c]))
    ensures CallInv(check, x, x.calls[c])
  {
    NextIsLater(check, w, a);
    if a == Step(c) && c in w.calls {
      StepKeepsCallInv(check, w, c);
    } else if c in w.calls {
      JustifiedPersists(check, w, x, w.calls[c]);
    }
  }

  /** What a call has consumed after an action it had consumed before, or it is fresh and the action its own step. */
  lemma NextConsumes(check: Envelope -> SignatureCheck, w: World, a: Action, x: World, c: nat, key: string)
    requires Inv(check, w) && x == Next(check, w, a) && Consumed(x, c, key)
    ensures Consumed(w, c, key) || (a == Step(c) && key !in w.store.nonces)
  {
    if a.Step? && a.id in w.calls {
      StepConsumes(check, w, a.id, c, key);
    }
  }

  lemma NextKeepsConsumers(check: Envelope -> SignatureCheck, w: World, a: Action, x: World, c: nat, d: nat, key: string)
    requires Inv(check, w) && x == Next(check, w, a) && Consumed(x, c, key) && Consumed(x, d, key)
    ensures c == d
  {
    NextConsumes(check, w, a, x, c, key);
    NextConsumes(check, w, a, x, d, key);
    if Consumed(w, c, key) {
      ConsumedIsStored(check, w, c, key);
    }
    if Consumed(w, d, key) {
      ConsumedIsStored(check, w, d, key);
    }
  }

  lemma NextKeepsInv(check: Envelope -> SignatureCheck, w: World, a: Action)
    requires Inv(check, w)
    ensures Inv(check, Next(check, w, a))
  {
    var x := Next(check, w, a);
    forall c | c in x.calls ensures CallInv(check, x, x.calls[c]) {
      NextKeepsCall(check, w, a, x, c);
    }
    forall c, d, key | Consumed(x, c, key) && Consumed(x, d, key) ensures c == d {
      NextKeepsConsumers(check, w, a, x, c, d, key);
    }
  }

  lemma {:induction false} RunKeepsInv(check: Envelope -> SignatureCheck, start: World, acts: seq<Action>, n: nat)
    requires Initial(start) && n <= |acts|
    ensures Inv(check, At(check, start, acts, n))
  {
    if n > 0 {
      RunKeepsInv(check, start, acts, n - 1);
      NextKeepsInv(check, At(check, start, acts, n - 1), acts[n - 1]);
    }
  }

  lemma {:induction false} RunIsLater(check: Envelope -> SignatureCheck, start: World, acts: seq<Action>, m: nat, n: nat)
    requires m <= n <= |acts|
    ensures Later(At(check, start, acts, m), At(check, start, acts, n))
    decreases n
  {
    if m < n {
      RunIsLater(check, start, acts, m, n - 1);
      NextIsLater(check, At(check, start, acts, n - 1), acts[n - 1]);
    }
  }
}
