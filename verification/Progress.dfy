/** How many steps of its own a call needs, whatever the others do in between. */
module Progress {
  import opened Protocol
  import opened Interleaving
  import opened VerifyTheorems

  /** The steps that a call has at most before it. */
  function Budget(call: Call): int {
    var left := 3 * (|call.Caps()| - call.next);
    match call.pc
    case AtSignature => left + 4
    case AtSigil => left + 3
    case AtEnvelopeExpiry => left + 2
    case AtCapRevocation => left + 1
    case AtCapExpiry => left
    case AtNonce => left - 1
    case AtAllowed | AtDenied(_) => 1
    case Returned(_) => 0
  }

  /** The call has not failed. */
  predicate OnTrack(call: Call) {
    call.pc == AtSignature || call.pc == AtSigil || Passing(call.pc)
  }

  /** Every step of its own takes at least one off, exactly one as long as the call does not fail. */
  lemma OwnStep(check: Envelope -> SignatureCheck, w: World, call: Call)
    requires CallInv(check, w, call) && !call.pc.Returned?
    ensures var after := StepCall(check, w.store, w.clock, call);
            && 0 <= Budget(after) < Budget(call)
            && after.env == call.env
            && (OnTrack(after) ==> OnTrack(call) && Budget(after) == Budget(call) - 1)
  {
  }

  /** How many of the actions from m to n are steps of the call. */
  function Steps(acts: seq<Action>, m: nat, n: nat, id: nat): nat
    requires m <= n <= |acts|
    decreases n
  {
    if m == n then 0 else Steps(acts, m, n - 1, id) + if acts[n - 1] == Step(id) then 1 else 0
  }

  /** What the steps taken so far leave of a budget. */
  ghost predicate Spent(w: World, id: nat, env: Envelope, budget: int, steps: nat) {
    && id in w.calls && w.calls[id].env == env
    && (w.calls[id].pc.Returned? || Budget(w.calls[id]) <= budget - steps)
    && (OnTrack(w.calls[id]) ==> Budget(w.calls[id]) >= budget - steps)
  }

  lemma SpentStep(check: Envelope -> SignatureCheck, w: World, a: Action, id: nat, env: Envelope, budget: int, steps: nat)
    requires Inv(check, w) && Spent(w, id, env, budget, steps)
    ensures Spent(Next(check, w, a), id, env, budget, steps + if a == Step(id) then 1 else 0)
  {
    assert CallInv(check, w, w.calls[id]);
    if a == Step(id) && !w.calls[id].pc.Returned? {
      OwnStep(check, w, w.calls[id]);
    }
  }

  lemma {:induction false} RunSpends(check: Envelope -> SignatureCheck, start: World, acts: seq<Action>, m: nat, n: nat,
                                     id: nat, call: Call)
    requires Initial(start) && m <= n <= |acts|
    requires id in At(check, start, acts, m).calls && At(check, start, acts, m).calls[id] == call
    ensures Spent(At(check, start, acts, n), id, call.env, Budget(call), Steps(acts, m, n, id))
    decreases n
  {
    if m < n {
      RunSpends(check, start, acts, m, n - 1, id, call);
      RunKeepsInv(check, start, acts, n - 1);
      SpentStep(check, At(check, start, acts, n - 1), acts[n - 1], id, call.env, Budget(call), Steps(acts, m, n - 1, id));
    }
  }

  /**
   In every interleaving a call has returned once it has taken three steps per
   cap and four more, and it cannot be accepted with fewer.
   */
  lemma ReturnsInTime(check: Envelope -> SignatureCheck, start: World, acts: seq<Action>, m: nat, n: nat,
                      id: nat, env: Envelope)
    requires Initial(start) && m < n <= |acts|
    requires acts[m] == Begin(id, env) && id !in At(check, start, acts, m).calls
    ensures var calls, steps := At(check, start, acts, n).calls, Steps(acts, m + 1, n, id);
            && id in calls && calls[id].env == env
            && (steps >= 3 * |env.caps.Items()| + 4 ==> calls[id].pc.Returned?)
            && (calls[id].pc == Returned(Accepted) ==> steps >= 3 * |env.caps.Items()| + 4)
  {
    var call := Call(env, AtSignature, 0);
    assert At(check, start, acts, m + 1).calls[id] == call;
    RunSpends(check, start, acts, m + 1, n, id, call);
    RunKeepsInv(check, start, acts, n);
    assert CallInv(check, At(check, start, acts, n), At(check, start, acts, n).calls[id]);
  }
}
