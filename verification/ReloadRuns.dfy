/** Reload requests one after the other. */
module ReloadRuns {
  import opened Protocol
  import opened Reload

  type Payload = Option<map<string, Toml>>

  ghost predicate Accepted(p: Payload) {
    p.Some? && Acceptable(p.value)
  }

  function Choose(raw: map<string, Toml>, key: string, otherwise: Field): Field {
    if key in raw && Meaning(key, raw[key]).Some? then Meaning(key, raw[key]).value else otherwise
  }

  /** The settings with the payload applied. */
  function Patch(c: Settings, raw: map<string, Toml>): (d: Settings)
    ensures Applied(c, raw, d)
  {
    Settings(Choose(raw, "jwks_rotation_policy", Text(c.jwksRotationPolicy)).text,
             Choose(raw, "brute_force_threshold", Number(c.bruteForceThreshold)).number,
             Choose(raw, "brute_force_window_sec", Number(c.bruteForceWindowSec)).number,
             Choose(raw, "log_level", Text(c.logLevel)).text,
             Choose(raw, "nats_workspace_id", Text(c.natsWorkspaceId)).text,
             Choose(raw, "redaction_patterns", Patterns(c.redactionPatterns)).patterns)
  }

  // ----- One after the other -----

  ghost function After(c: Settings, reqs: seq<Payload>, n: nat): Settings
    requires n <= |reqs|
  {
    if n == 0 then c
    else if Accepted(reqs[n - 1]) then Patch(After(c, reqs, n - 1), reqs[n - 1].value)
    else After(c, reqs, n - 1)
  }

  /** Request i is an accepted one that names the key. */
  ghost predicate Names(reqs: seq<Payload>, i: nat, key: string)
    requires i < |reqs|
  {
    Accepted(reqs[i]) && key in reqs[i].value
  }

  lemma FieldStep(c: Settings, p: Payload, key: string)
    requires Accepted(p) && key in RELOADABLE
    ensures Some(FieldOf(Patch(c, p.value), key)) ==
            if key in p.value then Meaning(key, p.value[key]) else Some(FieldOf(c, key))
  {
    assert Applied(c, p.value, Patch(c, p.value));
  }

  /** Every field holds the value of the last accepted request that names it, or its initial value if none (i < 0) does. */
  lemma {:induction false} LastAcceptedWins(c: Settings, reqs: seq<Payload>, n: nat, key: string, i: int)
    requires i < n <= |reqs| && key in RELOADABLE
    requires i >= 0 ==> Names(reqs, i, key)
    requires forall j :: 0 <= j < n && i < j ==> !Names(reqs, j, key)
    ensures Some(FieldOf(After(c, reqs, n), key)) ==
            if i >= 0 then Meaning(key, reqs[i].value[key]) else Some(FieldOf(c, key))
  {
    if n > 0 {
      var before := After(c, reqs, n - 1);
      if Accepted(reqs[n - 1]) {
        FieldStep(before, reqs[n - 1], key);
      }
      if i < n - 1 {
        assert !Names(reqs, n - 1, key);
        LastAcceptedWins(c, reqs, n - 1, key, i);
      }
    }
  }

  function Payloads(reqs: seq<Request>): seq<Payload> {
    seq(|reqs|, i requires 0 <= i < |reqs| => reqs[i].payload)
  }

  method ReloadOne(reloader: ConfigReloader, req: Request)
    modifies reloader
    ensures reloader.current ==
            if Accepted(req.payload) then Patch(old(reloader.current), req.payload.value) else old(reloader.current)
  {
    ghost var before := reloader.current;
    var r := reloader.ApplyReload(req);
    if r.Reloaded? {
      AppliedUnique(before, req.payload.value, reloader.current, Patch(before, req.payload.value));
    }
  }

  /** The reloader itself goes through exactly these configurations. */
  method ReloadAll(reloader: ConfigReloader, reqs: seq<Request>)
    modifies reloader
    ensures reloader.current == After(old(reloader.current), Payloads(reqs), |reqs|)
  {
    for n := 0 to |reqs|
      invariant reloader.current == After(old(reloader.current), Payloads(reqs), n)
    {
      ReloadOne(reloader, reqs[n]);
    }
  }
}
