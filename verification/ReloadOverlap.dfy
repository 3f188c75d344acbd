/**
 Reload requests that overlap. Each one takes its snapshot of the configuration
 in one critical section and commits the patched snapshot in another; between
 the two, other requests may commit. Requests that fail never commit, so only
 accepted ones are followed.
 */
module ReloadOverlap {
  import opened Protocol
  import opened Reload
  import opened ReloadRuns

  /** A request under way: when it was made and, once it has its snapshot, when that was taken and which it is. */
  datatype Call =
    | Reading(raw: map<string, Toml>, begun: nat)
    | Writing(raw: map<string, Toml>, begun: nat, snapped: nat, read: nat)

  /** A request that has committed, with the positions of its three actions and the index of its snapshot. */
  datatype Commit = Commit(id: nat, raw: map<string, Toml>, begun: nat, snapped: nat, committed: nat, read: nat)

  /** The number of actions so far, and all configurations that were ever current, the last one being current now. */
  datatype World = World(time: nat, history: seq<Settings>, calls: map<nat, Call>, commits: seq<Commit>)

  datatype Action = Begin(id: nat, payload: Payload) | Step(id: nat)

  /** A step of a request that is under way. */
  function StepCall(w: World, id: nat, call: Call): World
    requires w.history != []
  {
    match call
    case Reading(raw, begun) =>
      w.(time := w.time + 1, calls := w.calls[id := Writing(raw, begun, w.time, |w.history| - 1)])
    case Writing(raw, begun, snapped, read) =>
      if read >= |w.history| then w.(time := w.time + 1)
      else World(w.time + 1, w.history + [Patch(w.history[read], raw)], w.calls - {id},
                 w.commits + [Commit(id, raw, begun, snapped, w.time, read)])
  }

  ghost function Next(w: World, a: Action): World
    requires w.history != []
  {
    match a
    case Begin(id, payload) =>
      if id in w.calls || !ReloadRuns.Accepted(payload) then w.(time := w.time + 1)
      else w.(time := w.time + 1, calls := w.calls[id := Reading(payload.value, w.time)])
    case Step(id) => if id in w.calls then StepCall(w, id, w.calls[id]) else w.(time := w.time + 1)
  }

  ghost predicate Moves(w: World, a: Action, x: World) {
    w.history != [] && x == Next(w, a)
  }

  /** The worlds that these actions go through, from a reloader that has just come up. */
  ghost predicate IsRun(c: Settings, acts: seq<Action>, ws: seq<World>) {
    && |ws| == |acts| + 1
    && ws[0] == World(0, [c], map[], [])
    && forall n :: 0 <= n < |acts| ==> Moves(ws[n], acts[n], ws[n + 1])
  }

  lemma Prolong(c: Settings, acts: seq<Action>, ws: seq<World>, a: Action, x: World)
    requires IsRun(c, acts, ws) && Moves(ws[|acts|], a, x)
    ensures IsRun(c, acts + [a], ws + [x])
  {
    var acts', ws' := acts + [a], ws + [x];
    forall n | 0 <= n < |acts'| ensures Moves(ws'[n], acts'[n], ws'[n + 1]) {
      assert n < |acts| ==> Moves(ws[n], acts[n], ws[n + 1]);
    }
  }

  /** Any actions make a run. */
  lemma {:induction false} RunExists(c: Settings, acts: seq<Action>) returns (ws: seq<World>)
    ensures IsRun(c, acts, ws) && ws[|acts|].history != []
  {
    if acts == [] {
      ws := [World(0, [c], map[], [])];
    } else {
      var n := |acts| - 1;
      ws := RunExists(c, acts[..n]);
      var x := Next(ws[n], acts[n]);
      Prolong(c, acts[..n], ws, acts[n], x);
      ws := ws + [x];
      assert acts[..n] + [acts[n]] == acts;
    }
  }

  // ----- Where a configuration comes from -----

  /** The call was begun, and took its snapshot, by the actions at the positions it remembers. */
  ghost predicate CallOk(acts: seq<Action>, ws: seq<World>, n: nat, id: nat, call: Call)
    requires n <= |acts| && |ws| == |acts| + 1
  {
    && call.begun < n && acts[call.begun] == Begin(id, Some(call.raw)) && Acceptable(call.raw)
    && (call.Writing? ==>
          && call.begun < call.snapped < n && acts[call.snapped] == Step(id)
          && Holds(ws[call.snapped], id, Reading(call.raw, call.begun))
          && |ws[call.snapped].history| == call.read + 1)
  }

  predicate Holds(w: World, id: nat, call: Call) {
    id in w.calls && w.calls[id] == call
  }

  /** Commit k was made by that call, and added configuration k + 1. */
  ghost predicate CommitOk(acts: seq<Action>, ws: seq<World>, n: nat, o: Commit, k: nat)
    requires n <= |acts| && |ws| == |acts| + 1
  {
    && CallOk(acts, ws, n, o.id, Writing(o.raw, o.begun, o.snapped, o.read))
    && o.snapped < o.committed < n && acts[o.committed] == Step(o.id)
    && Holds(ws[o.committed], o.id, Writing(o.raw, o.begun, o.snapped, o.read))
    && |ws[o.committed].history| == k + 1
  }

  /** Every configuration but the first is an earlier one with the payload of its commit applied. */
  ghost predicate Linked(c: Settings, h: seq<Settings>, os: seq<Commit>) {
    && |h| == |os| + 1 && h[0] == c
    && forall k :: 0 <= k < |os| ==> os[k].read <= k && Acceptable(os[k].raw) && h[k + 1] == Patch(h[os[k].read], os[k].raw)
  }

  /** Calls and commits under one id follow each other. */
  ghost predicate Separate(w: World) {
    && (forall k, l :: 0 <= k < l < |w.commits| && w.commits[k].id == w.commits[l].id ==>
          w.commits[k].committed < w.commits[l].begun)
    && forall id, k :: id in w.calls && 0 <= k < |w.commits| && w.commits[k].id == id ==>
         w.commits[k].committed < w.calls[id].begun
  }

  ghost predicate CallsOk(acts: seq<Action>, ws: seq<World>, n: nat, w: World)
    requires n <= |acts| && |ws| == |acts| + 1
  {
    forall id :: id in w.calls ==>
      CallOk(acts, ws, n, id, w.calls[id]) && (w.calls[id].Writing? ==> w.calls[id].read < |w.history|)
  }

  ghost predicate CommitsOk(acts: seq<Action>, ws: seq<World>, n: nat, w: World)
    requires n <= |acts| && |ws| == |acts| + 1
  {
    forall k :: 0 <= k < |w.commits| ==> CommitOk(acts, ws, n, w.commits[k], k)
  }

  /** What holds of the world after n actions. */
  ghost predicate Inv(c: Settings, acts: seq<Action>, ws: seq<World>, n: nat, w: World)
    requires n <= |acts| && |ws| == |acts| + 1
  {
    w.time == n && Linked(c, w.history, w.commits) && Separate(w) && CallsOk(acts, ws, n, w) && CommitsOk(acts, ws, n, w)
  }

  lemma LinkedNext(c: Settings, h: seq<Settings>, os: seq<Commit>, d: Settings, o: Commit)
    requires Linked(c, h, os) && o.read < |h| && Acceptable(o.raw) && d == Patch(h[o.read], o.raw)
    ensures Linked(c, h + [d], os + [o])
  {
    var h', os' := h + [d], os + [o];
    forall k | 0 <= k < |os'|
      ensures os'[k].read <= k && Acceptable(os'[k].raw) && h'[k + 1] == Patch(h'[os'[k].read], os'[k].raw)
    {
      assert k < |os| ==> os'[k] == os[k] && h'[k + 1] == h[k + 1];
    }
  }

  lemma OneLater(acts: seq<Action>, ws: seq<World>, n: nat, w: World)
    requires n < |acts| && |ws| == |acts| + 1 && CallsOk(acts, ws, n, w) && CommitsOk(acts, ws, n, w)
    ensures CallsOk(acts, ws, n + 1, w) && CommitsOk(acts, ws, n + 1, w)
  {
    forall k | 0 <= k < |w.commits| ensures CommitOk(acts, ws, n + 1, w.commits[k], k) {
      assert CommitOk(acts, ws, n, w.commits[k], k);
    }
  }

  lemma IdleKeepsInv(c: Settings, acts: seq<Action>, ws: seq<World>, n: nat, w: World, x: World)
    requires n < |acts| && |ws| == |acts| + 1 && Inv(c, acts, ws, n, w) && x == w.(time := n + 1)
    ensures Inv(c, acts, ws, n + 1, x)
  {
    OneLater(acts, ws, n, w);
  }

  lemma CallKeepsInv(c: Settings, acts: seq<Action>, ws: seq<World>, n: nat, w: World, x: World, id: nat, call: Call)
    requires n < |acts| && |ws| == |acts| + 1 && Inv(c, acts, ws, n, w)
    requires x == w.(time := n + 1, calls := w.calls[id := call])
    requires CallOk(acts, ws, n + 1, id, call) && (call.Writing? ==> call.read < |w.history|)
    requires if id in w.calls then call.begun == w.calls[id].begun else call.begun == n
    ensures Inv(c, acts, ws, n + 1, x)
  {
    OneLater(acts, ws, n, w);
    forall k | 0 <= k < |w.commits| && w.commits[k].id == id ensures w.commits[k].committed < call.begun {
      assert CommitOk(acts, ws, n, w.commits[k], k);
    }
  }

  lemma SeparateCommit(w: World, x: World, o: Commit)
    requires Separate(w) && x.commits == w.commits + [o] && x.calls == w.calls - {o.id}
    requires o.id in w.calls && o.begun == w.calls[o.id].begun
    ensures Separate(x)
  {
    forall k, l | 0 <= k < l < |x.commits| && x.commits[k].id == x.commits[l].id
      ensures x.commits[k].committed < x.commits[l].begun
    {
      assert x.commits[k] == w.commits[k];
    }
  }

  lemma CommitKeepsInv(c: Settings, acts: seq<Action>, ws: seq<World>, n: nat, w: World, x: World, o: Commit, d: Settings)
    requires n < |acts| && |ws| == |acts| + 1 && Inv(c, acts, ws, n, w)
    requires x == World(n + 1, w.history + [d], w.calls - {o.id}, w.commits + [o])
    requires Linked(c, w.history + [d], w.commits + [o])
    requires o.id in w.calls && o.begun == w.calls[o.id].begun && CommitOk(acts, ws, n + 1, o, |w.commits|)
    ensures Inv(c, acts, ws, n + 1, x)
  {
    OneLater(acts, ws, n, w);
    SeparateCommit(w, x, o);
    forall k | 0 <= k < |x.commits| ensures CommitOk(acts, ws, n + 1, x.commits[k], k) {
      assert k < |w.commits| ==> x.commits[k] == w.commits[k] && CommitOk(acts, ws, n + 1, w.commits[k], k);
    }
  }

  lemma StepKeepsInv(c: Settings, acts: seq<Action>, ws: seq<World>, n: nat)
    requires IsRun(c, acts, ws) && n < |acts| && Inv(c, acts, ws, n, ws[n])
    ensures Inv(c, acts, ws, n + 1, ws[n + 1])
  {
    var w, x, a := ws[n], ws[n + 1], acts[n];
    assert Moves(w, a, x);
    if a.Begin? && a.id !in w.calls && ReloadRuns.Accepted(a.payload) {
      CallKeepsInv(c, acts, ws, n, w, x, a.id, Reading(a.payload.value, n));
    } else if a.Step? && a.id in w.calls {
      var call := w.calls[a.id];
      assert CallOk(acts, ws, n, a.id, call);
      if call.Reading? {
        CallKeepsInv(c, acts, ws, n, w, x, a.id, Writing(call.raw, call.begun, n, |w.history| - 1));
      } else {
        var o := Commit(a.id, call.raw, call.begun, call.snapped, n, call.read);
        var d := Patch(w.history[call.read], call.raw);
        LinkedNext(c, w.history, w.commits, d, o);
        CommitKeepsInv(c, acts, ws, n, w, x, o, d);
      }
    } else {
      IdleKeepsInv(c, acts, ws, n, w, x);
    }
  }

  lemma {:induction false} RunKeepsInv(c: Settings, acts: seq<Action>, ws: seq<World>, n: nat)
    requires IsRun(c, acts, ws) && n <= |acts|
    ensures Inv(c, acts, ws, n, ws[n])
  {
    if n > 0 {
      RunKeepsInv(c, acts, ws, n - 1);
      StepKeepsInv(c, acts, ws, n - 1);
    }
  }

  /**
   However requests overlap, every configuration after the first comes from one
   accepted request of the run: it was begun, took as snapshot the configuration
   that was current then, and committed that snapshot with its own payload.
   */
  lemma EveryCommitIsDerived(c: Settings, acts: seq<Action>, ws: seq<World>, i: nat)
    requires IsRun(c, acts, ws) && 0 < i < |ws[|acts|].history|
    ensures var w := ws[|acts|];
            && |w.commits| == |w.history| - 1
            && (var o := w.commits[i - 1];
                && o.begun < o.snapped < o.committed < |acts|
                && acts[o.begun] == Begin(o.id, Some(o.raw)) && Acceptable(o.raw)
                && acts[o.snapped] == Step(o.id) && Holds(ws[o.snapped], o.id, Reading(o.raw, o.begun))
                && acts[o.committed] == Step(o.id)
                && Holds(ws[o.committed], o.id, Writing(o.raw, o.begun, o.snapped, o.read))
                && |ws[o.snapped].history| == o.read + 1 && |ws[o.committed].history| == i
                && o.read < i && w.history[i] == Patch(w.history[o.read], o.raw))
  {
    RunKeepsInv(c, acts, ws, |acts|);
    assert CommitOk(acts, ws, |acts|, ws[|acts|].commits[i - 1], i - 1);
  }

  lemma {:induction false} HistoryGrows(c: Settings, acts: seq<Action>, ws: seq<World>, m: nat, n: nat)
    requires IsRun(c, acts, ws) && m <= n <= |acts|
    ensures ws[m].history <= ws[n].history
    decreases n
  {
    if m < n {
      HistoryGrows(c, acts, ws, m, n - 1);
      assert Moves(ws[n - 1], acts[n - 1], ws[n]);
    }
  }

  /** Different commits come from different requests, and follow each other as their commit actions do. */
  lemma CommitsAreDistinct(c: Settings, acts: seq<Action>, ws: seq<World>, k: nat, l: nat)
    requires IsRun(c, acts, ws) && k < l < |ws[|acts|].commits|
    ensures var os := ws[|acts|].commits;
            os[k].begun != os[l].begun && os[k].committed < os[l].committed
  {
    RunKeepsInv(c, acts, ws, |acts|);
    var os := ws[|acts|].commits;
    assert CommitOk(acts, ws, |acts|, os[k], k) && CommitOk(acts, ws, |acts|, os[l], l);
    if os[l].committed <= os[k].committed {
      HistoryGrows(c, acts, ws, os[l].committed, os[k].committed);
    }
  }

  /** The snapshot really is what was current when it was taken. */
  lemma SnapshotWasCurrent(c: Settings, acts: seq<Action>, ws: seq<World>, k: nat)
    requires IsRun(c, acts, ws) && k < |ws[|acts|].commits|
    ensures var w := ws[|acts|];
            var o := w.commits[k];
            && o.snapped < |acts| && o.read < |w.history|
            && ws[o.snapped].history == w.history[..o.read + 1]
  {
    RunKeepsInv(c, acts, ws, |acts|);
    var o := ws[|acts|].commits[k];
    assert CommitOk(acts, ws, |acts|, o, k);
    HistoryGrows(c, acts, ws, o.snapped, |acts|);
  }

  // ----- When overlapping requests come to the same as sequential ones -----

  /** The payloads in the order in which they were committed. */
  function Committed(os: seq<Commit>): seq<Payload> {
    seq(|os|, i requires 0 <= i < |os| => Some(os[i].raw))
  }

  /** What the payloads committed so far make of the first configuration, one after the other. */
  ghost function Sequential(c: Settings, os: seq<Commit>): seq<Settings> {
    seq(|os| + 1, i requires 0 <= i <= |os| => After(c, Committed(os), i))
  }

  /** Each configuration is the one before it with the next payload applied. */
  ghost predicate Chain(c: Settings, g: seq<Settings>, os: seq<Commit>) {
    |g| == |os| + 1 && g[0] == c && forall k :: 0 <= k < |os| ==> g[k + 1] == Patch(g[k], os[k].raw)
  }

  /** The two agree on every key that the payload leaves alone. */
  ghost predicate AgreeOutside(x: Settings, y: Settings, raw: map<string, Toml>) {
    forall key :: key in RELOADABLE && key !in raw ==> FieldOf(x, key) == FieldOf(y, key)
  }

  lemma SamePatch(x: Settings, y: Settings, raw: map<string, Toml>)
    requires Acceptable(raw)
    ensures Patch(x, raw) == Patch(y, raw) <==> AgreeOutside(x, y, raw)
  {
    var p, q := Patch(x, raw), Patch(y, raw);
    assert Applied(x, raw, p) && Applied(y, raw, q);
    if AgreeOutside(x, y, raw) {
      forall key | key in RELOADABLE ensures FieldOf(p, key) == FieldOf(q, key) {
      }
      SameSettings(p, q);
    }
    if p == q {
      forall key | key in RELOADABLE && key !in raw ensures FieldOf(x, key) == FieldOf(y, key) {
        assert FieldOf(p, key) == FieldOf(x, key) && FieldOf(q, key) == FieldOf(y, key);
      }
    }
  }

  lemma PatchAgreeing(x: Settings, y: Settings, raw: map<string, Toml>, p: Settings, q: Settings)
    requires Acceptable(raw) && AgreeOutside(x, y, raw) && p == Patch(x, raw) && q == Patch(y, raw)
    ensures p == q
  {
    SamePatch(x, y, raw);
  }

  lemma AfterNext(c: Settings, os: seq<Commit>, k: nat)
    requires k < |os| && Acceptable(os[k].raw)
    ensures After(c, Committed(os), k + 1) == Patch(After(c, Committed(os), k), os[k].raw)
  {
    assert Committed(os)[k] == Some(os[k].raw);
  }

  lemma SequentialNext(c: Settings, os: seq<Commit>, k: nat)
    requires k < |os| && Acceptable(os[k].raw)
    ensures Sequential(c, os)[k + 1] == Patch(Sequential(c, os)[k], os[k].raw)
  {
    AfterNext(c, os, k);
  }

  lemma SequentialIsChain(c: Settings, os: seq<Commit>)
    requires forall k :: 0 <= k < |os| ==> Acceptable(os[k].raw)
    ensures Chain(c, Sequential(c, os), os)
  {
    forall k | 0 <= k < |os| ensures Sequential(c, os)[k + 1] == Patch(Sequential(c, os)[k], os[k].raw) {
      SequentialNext(c, os, k);
    }
  }

  /** At every commit the snapshot agrees with the configuration it replaces on every key that is not named. */
  ghost predicate Agreeing(h: seq<Settings>, os: seq<Commit>)
    requires |h| == |os| + 1 && forall k :: 0 <= k < |os| ==> os[k].read <= k
  {
    forall k :: 0 <= k < |os| ==> AgreeOutside(h[os[k].read], h[k], os[k].raw)
  }

  lemma {:induction false} ChainIfAgreeing(c: Settings, h: seq<Settings>, os: seq<Commit>, g: seq<Settings>, i: nat)
    requires Linked(c, h, os) && Chain(c, g, os) && Agreeing(h, os) && i < |h|
    ensures h[i] == g[i]
  {
    if i > 0 {
      var k := i - 1;
      ChainIfAgreeing(c, h, os, g, k);
      PatchAgreeing(h[os[k].read], h[k], os[k].raw, h[i], g[i]);
    }
  }

  lemma AgreeingIfChain(c: Settings, h: seq<Settings>, os: seq<Commit>, k: nat)
    requires Linked(c, h, os) && Chain(c, h, os) && k < |os|
    ensures AgreeOutside(h[os[k].read], h[k], os[k].raw)
  {
    SamePatch(h[os[k].read], h[k], os[k].raw);
  }

  lemma ChainExactly(c: Settings, h: seq<Settings>, os: seq<Commit>, g: seq<Settings>)
    requires Linked(c, h, os) && Chain(c, g, os)
    ensures h == g <==> Agreeing(h, os)
  {
    if h == g {
      forall k | 0 <= k < |os| ensures AgreeOutside(h[os[k].read], h[k], os[k].raw) {
        AgreeingIfChain(c, h, os, k);
      }
    }
    if Agreeing(h, os) {
      forall i | 0 <= i < |h| ensures h[i] == g[i] {
        ChainIfAgreeing(c, h, os, g, i);
      }
    }
  }

  /**
   No accepted change is ever lost, that is, every configuration is the one that
   the payloads committed so far make when applied one after the other, if and
   only if at each commit the snapshot agrees with the configuration it replaces
   on every key that the payload does not name.
   */
  lemma SequentialExactly(c: Settings, acts: seq<Action>, ws: seq<World>)
    requires IsRun(c, acts, ws)
    ensures var w := ws[|acts|];
            && |w.history| == |w.commits| + 1 && (forall k :: 0 <= k < |w.commits| ==> w.commits[k].read <= k)
            && (w.history == Sequential(c, w.commits) <==> Agreeing(w.history, w.commits))
  {
    RunKeepsInv(c, acts, ws, |acts|);
    var w := ws[|acts|];
    SequentialIsChain(c, w.commits);
    ChainExactly(c, w.history, w.commits, Sequential(c, w.commits));
  }

  /** No other request commits between a request's snapshot and its own commit. */
  ghost predicate Undisturbed(os: seq<Commit>) {
    forall k, l :: 0 <= k < |os| && 0 <= l < |os| && k != l ==> !(os[k].snapped < os[l].committed < os[k].committed)
  }

  lemma UndisturbedReadsLast(c: Settings, acts: seq<Action>, ws: seq<World>, k: nat)
    requires IsRun(c, acts, ws) && k < |ws[|acts|].commits| && Undisturbed(ws[|acts|].commits)
    ensures ws[|acts|].commits[k].read == k
  {
    RunKeepsInv(c, acts, ws, |acts|);
    var os := ws[|acts|].commits;
    assert CommitOk(acts, ws, |acts|, os[k], k);
    if os[k].read < k {
      var l := k - 1;
      assert CommitOk(acts, ws, |acts|, os[l], l);
      CommitsAreDistinct(c, acts, ws, l, k);
      var s, t := os[k].snapped, os[l].committed;
      if t < s {
        assert Moves(ws[t], acts[t], ws[t + 1]);
        HistoryGrows(c, acts, ws, t + 1, s);
      }
    }
  }

  /** What a caller can see to: if no commit falls between a snapshot and its commit, the run is a sequential one. */
  lemma UndisturbedIsSequential(c: Settings, acts: seq<Action>, ws: seq<World>)
    requires IsRun(c, acts, ws) && Undisturbed(ws[|acts|].commits)
    ensures var w := ws[|acts|];
            w.history == Sequential(c, w.commits)
  {
    SequentialExactly(c, acts, ws);
    var os := ws[|acts|].commits;
    forall k | 0 <= k < |os| ensures os[k].read == k {
      UndisturbedReadsLast(c, acts, ws, k);
    }
  }

  lemma NamesPayload(reqs: seq<Payload>, j: nat, raw: map<string, Toml>, key: string)
    requires j < |reqs| && reqs[j] == Some(raw) && Acceptable(raw)
    ensures Names(reqs, j, key) <==> key in raw
  {
  }

  /** Request i, if any, is the last that names the key. */
  ghost predicate LastNaming(reqs: seq<Payload>, key: string, i: int) {
    && i < |reqs| && (i >= 0 ==> Names(reqs, i, key))
    && forall j :: 0 <= j < |reqs| && i < j ==> !Names(reqs, j, key)
  }

  lemma LastNamed(os: seq<Commit>, key: string, i: int)
    requires i < |os| && forall k :: 0 <= k < |os| ==> Acceptable(os[k].raw)
    requires (i >= 0 ==> key in os[i].raw) && forall j :: 0 <= j < |os| && i < j ==> key !in os[j].raw
    ensures LastNaming(Committed(os), key, i)
  {
    var reqs := Committed(os);
    forall j | 0 <= j < |os| ensures Names(reqs, j, key) <==> key in os[j].raw {
      NamesPayload(reqs, j, os[j].raw, key);
    }
  }

  lemma LastOfSequential(c: Settings, reqs: seq<Payload>, key: string, i: int, d: Settings)
    requires key in RELOADABLE && LastNaming(reqs, key, i) && d == After(c, reqs, |reqs|)
    ensures Some(FieldOf(d, key)) == if i >= 0 then Meaning(key, reqs[i].value[key]) else Some(FieldOf(c, key))
  {
    LastAcceptedWins(c, reqs, |reqs|, key, i);
  }

  /** Then every field holds the value of the last committed request that names it, or its initial value (i < 0). */
  lemma LastCommitWins(c: Settings, acts: seq<Action>, ws: seq<World>, key: string, i: int)
    requires IsRun(c, acts, ws) && Undisturbed(ws[|acts|].commits) && key in RELOADABLE
    requires var os := ws[|acts|].commits;
             && i < |os| && (i >= 0 ==> key in os[i].raw)
             && forall j :: 0 <= j < |os| && i < j ==> key !in os[j].raw
    ensures var w := ws[|acts|];
            && w.history != []
            && Some(FieldOf(w.history[|w.history| - 1], key)) ==
               if i >= 0 then Meaning(key, w.commits[i].raw[key]) else Some(FieldOf(c, key))
  {
    var os := ws[|acts|].commits;
    assert forall k :: 0 <= k < |os| ==> Acceptable(os[k].raw) by {
      RunKeepsInv(c, acts, ws, |acts|);
    }
    UndisturbedIsSequential(c, acts, ws);
    LastNamed(os, key, i);
    LastOfSequential(c, Committed(os), key, i, ws[|acts|].history[|os|]);
  }

  // ----- An overlap that loses a change -----

  /** Two requests that both take their snapshot before either commits. */
  function Overlap(a: map<string, Toml>, b: map<string, Toml>): seq<Action> {
    [Begin(0, Some(a)), Begin(1, Some(b)), Step(0), Step(1), Step(0), Step(1)]
  }

  lemma OverlapReads(c: Settings, a: map<string, Toml>, b: map<string, Toml>, ws: seq<World>)
    requires Acceptable(a) && Acceptable(b) && IsRun(c, Overlap(a, b), ws)
    ensures ws[4] == World(4, [c], map[0 := Writing(a, 0, 2, 0), 1 := Writing(b, 1, 3, 0)], [])
  {
    var acts := Overlap(a, b);
    assert Moves(ws[0], acts[0], ws[1]) && Moves(ws[1], acts[1], ws[2]);
    assert ws[2] == World(2, [c], map[0 := Reading(a, 0), 1 := Reading(b, 1)], []);
    assert Moves(ws[2], acts[2], ws[3]) && Moves(ws[3], acts[3], ws[4]);
  }

  lemma OverlapRun(c: Settings, a: map<string, Toml>, b: map<string, Toml>) returns (ws: seq<World>)
    requires Acceptable(a) && Acceptable(b)
    ensures IsRun(c, Overlap(a, b), ws) && ws[6].history == [c, Patch(c, a), Patch(c, b)] && ws[6].calls == map[]
  {
    var acts := Overlap(a, b);
    ws := RunExists(c, acts);
    OverlapReads(c, a, b, ws);
    assert Moves(ws[4], acts[4], ws[5]);
    assert ws[5].history == [c, Patch(c, a)] && ws[5].calls == map[1 := Writing(b, 1, 3, 0)];
    assert Moves(ws[5], acts[5], ws[6]);
  }

  /**
   So an accepted change can be lost. Any two accepted payloads can overlap so
   that both are committed, and every field that only the first one names ends
   with its old value.
   */
  lemma OverlapLosesUpdate(c: Settings, a: map<string, Toml>, b: map<string, Toml>, key: string)
    returns (ws: seq<World>)
    requires Acceptable(a) && Acceptable(b) && key in a && key !in b
    ensures IsRun(c, Overlap(a, b), ws) && ws[6].history == [c, Patch(c, a), Patch(c, b)] && ws[6].calls == map[]
    ensures Some(FieldOf(Patch(c, a), key)) == Meaning(key, a[key])
    ensures FieldOf(Patch(c, b), key) == FieldOf(c, key)
  {
    ws := OverlapRun(c, a, b);
    MeaningIsReloadable(key, a[key]);
    FieldStep(c, Some(a), key);
    FieldStep(c, Some(b), key);
  }
}
