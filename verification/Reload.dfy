/**
 Hot reload of the broker's settings. A request is the key/value map that its
 TOML payload decodes to, None when the payload is malformed. A map is iterated
 in an order that nobody controls.
 */
module Reload {
  import opened Protocol
  import opened Sorting

  datatype Toml =
    | TString(s: string)
    | TInt(n: int)
    | TFloat(r: real)
    | TArray(items: seq<Toml>)
    | TOther

  datatype Settings = Settings(jwksRotationPolicy: string, bruteForceThreshold: int, bruteForceWindowSec: int,
                               logLevel: string, natsWorkspaceId: string, redactionPatterns: Slice<string>)

  /** `partial` is what the decoder had filled in when it met the error, if it met one. */
  datatype Request = Request(corrId: string, payload: Option<map<string, Toml>>, partial: map<string, Toml>)

  const RELOADABLE := {"jwks_rotation_policy", "brute_force_threshold", "brute_force_window_sec",
                       "log_level", "nats_workspace_id", "redaction_patterns"}

  const NOT_RELOADABLE := {"signing_key", "postgres_url"}

  datatype Outcome = Reloaded(keys: seq<string>) | Failed(keys: seq<string>, reason: string)

  // ----- One key -----

  /** The value of a field, in the type of the field. */
  datatype Field = Text(text: string) | Number(number: int) | Patterns(patterns: Slice<string>)

  function Trunc(r: real): int {
    if r >= 0.0 then r.Floor else -((-r).Floor)
  }

  function Strings(items: seq<Toml>): Option<seq<string>> {
    if items == [] then Some([])
    else if !items[|items| - 1].TString? then None
    else
      var front :- Strings(items[..|items| - 1]);
      Some(front + [items[|items| - 1].s])
  }

  /** It is there exactly if every item is a string, and then holds their texts in order. */
  lemma {:induction false} StringsMeaning(items: seq<Toml>)
    ensures Strings(items).Some? <==> forall i :: 0 <= i < |items| ==> items[i].TString?
    ensures Strings(items).Some? ==>
              && |Strings(items).value| == |items|
              && forall i :: 0 <= i < |items| ==> items[i] == TString(Strings(items).value[i])
  {
    if items != [] {
      var n := |items| - 1;
      StringsMeaning(items[..n]);
      assert forall i :: 0 <= i < n ==> items[..n][i] == items[i];
    }
  }

  /** What a value means for a key, if the key is reloadable and the value has its type. */
  function Meaning(key: string, v: Toml): Option<Field> {
    if key in {"jwks_rotation_policy", "log_level", "nats_workspace_id"} then
      if v.TString? then Some(Text(v.s)) else None
    else if key in {"brute_force_threshold", "brute_force_window_sec"} then
      if v.TInt? then Some(Number(v.n)) else if v.TFloat? then Some(Number(Trunc(v.r))) else None
    else if key == "redaction_patterns" then
      if !v.TArray? then None
      else
        var ss :- Strings(v.items);
        Some(Patterns(Of(ss)))
    else None
  }

  function FieldOf(c: Settings, key: string): Field {
    match key
    case "jwks_rotation_policy" => Text(c.jwksRotationPolicy)
    case "brute_force_threshold" => Number(c.bruteForceThreshold)
    case "brute_force_window_sec" => Number(c.bruteForceWindowSec)
    case "log_level" => Text(c.logLevel)
    case "nats_workspace_id" => Text(c.natsWorkspaceId)
    case _ => Patterns(c.redactionPatterns)
  }

  /** Two configurations are the same if they agree on every reloadable key. */
  lemma SameSettings(c: Settings, d: Settings)
    requires forall k :: k in RELOADABLE ==> FieldOf(c, k) == FieldOf(d, k)
    ensures c == d
  {
    assert FieldOf(c, "jwks_rotation_policy") == FieldOf(d, "jwks_rotation_policy");
    assert FieldOf(c, "brute_force_threshold") == FieldOf(d, "brute_force_threshold");
    assert FieldOf(c, "brute_force_window_sec") == FieldOf(d, "brute_force_window_sec");
    assert FieldOf(c, "log_level") == FieldOf(d, "log_level");
    assert FieldOf(c, "nats_workspace_id") == FieldOf(d, "nats_workspace_id");
    assert FieldOf(c, "redaction_patterns") == FieldOf(d, "redaction_patterns");
  }

  // ----- A whole payload -----

  ghost predicate Acceptable(raw: map<string, Toml>) {
    forall k :: k in raw ==> Meaning(k, raw[k]).Some?
  }

  /** d is c with the payload applied: named fields have the named values, all others are as before. */
  ghost predicate Applied(c: Settings, raw: map<string, Toml>, d: Settings) {
    forall k :: k in RELOADABLE ==>
      FieldOf(d, k) == if k in raw && Meaning(k, raw[k]).Some? then Meaning(k, raw[k]).value else FieldOf(c, k)
  }

  lemma AppliedUnique(c: Settings, raw: map<string, Toml>, d: Settings, e: Settings)
    requires Applied(c, raw, d) && Applied(c, raw, e)
    ensures d == e
  {
    SameSettings(d, e);
  }

  lemma MeaningIsReloadable(key: string, v: Toml)
    ensures Meaning(key, v).Some? ==> key in RELOADABLE
  {
  }

  // ----- The settings by name -----

  /** The value has the type of the setting that the key names; no other key names one. */
  ghost predicate Fits(key: string, v: Toml) {
    match key
    case "jwks_rotation_policy" => v.TString?
    case "log_level" => v.TString?
    case "nats_workspace_id" => v.TString?
    case "brute_force_threshold" => v.TInt? || v.TFloat?
    case "brute_force_window_sec" => v.TInt? || v.TFloat?
    case "redaction_patterns" => v.TArray? && forall i :: 0 <= i < |v.items| ==> v.items[i].TString?
    case _ => false
  }

  /** The number is that of an integer, or of a float with its fraction cut off. */
  predicate Counts(v: Toml, n: int) {
    match v
    case TInt(m) => n == m
    case TFloat(r) => if r >= 0.0 then n as real <= r < n as real + 1.0 else n as real - 1.0 < r <= n as real
    case _ => false
  }

  ghost predicate Lists(v: Toml, patterns: Slice<string>) {
    && v.TArray? && patterns.Of? && |patterns.elements| == |v.items|
    && forall i :: 0 <= i < |v.items| ==> v.items[i] == TString(patterns.elements[i])
  }

  /** Setting by setting: the payload's value where it has one, and otherwise the old one. */
  ghost predicate Updated(c: Settings, raw: map<string, Toml>, d: Settings) {
    && (if "jwks_rotation_policy" in raw then raw["jwks_rotation_policy"] == TString(d.jwksRotationPolicy)
        else d.jwksRotationPolicy == c.jwksRotationPolicy)
    && (if "log_level" in raw then raw["log_level"] == TString(d.logLevel) else d.logLevel == c.logLevel)
    && (if "nats_workspace_id" in raw then raw["nats_workspace_id"] == TString(d.natsWorkspaceId)
        else d.natsWorkspaceId == c.natsWorkspaceId)
    && (if "brute_force_threshold" in raw then Counts(raw["brute_force_threshold"], d.bruteForceThreshold)
        else d.bruteForceThreshold == c.bruteForceThreshold)
    && (if "brute_force_window_sec" in raw then Counts(raw["brute_force_window_sec"], d.bruteForceWindowSec)
        else d.bruteForceWindowSec == c.bruteForceWindowSec)
    && (if "redaction_patterns" in raw then Lists(raw["redaction_patterns"], d.redactionPatterns)
        else d.redactionPatterns == c.redactionPatterns)
  }

  lemma TruncMeaning(r: real)
    ensures Counts(TFloat(r), Trunc(r))
  {
  }

  lemma FitsExactly(key: string, v: Toml)
    ensures Meaning(key, v).Some? <==> Fits(key, v)
  {
    if v.TArray? {
      StringsMeaning(v.items);
    }
  }

  /** A payload is acceptable exactly if each of its keys names a setting and has a value of its type. */
  lemma AcceptableExactly(raw: map<string, Toml>)
    ensures Acceptable(raw) <==> forall k :: k in raw ==> Fits(k, raw[k])
  {
    forall k | k in raw ensures Meaning(k, raw[k]).Some? <==> Fits(k, raw[k]) {
      FitsExactly(k, raw[k]);
    }
  }

  lemma NumberSet(key: string, v: Toml, n: int)
    requires key in {"brute_force_threshold", "brute_force_window_sec"} && Meaning(key, v) == Some(Number(n))
    ensures Counts(v, n)
  {
    if v.TFloat? {
      TruncMeaning(v.r);
    }
  }

  lemma PatternsSet(v: Toml, patterns: Slice<string>)
    requires Meaning("redaction_patterns", v) == Some(Patterns(patterns))
    ensures Lists(v, patterns)
  {
    StringsMeaning(v.items);
  }

  ghost predicate AppliedAt(c: Settings, raw: map<string, Toml>, d: Settings, k: string) {
    FieldOf(d, k) == if k in raw && Meaning(k, raw[k]).Some? then Meaning(k, raw[k]).value else FieldOf(c, k)
  }

  lemma TextsUpdated(c: Settings, raw: map<string, Toml>, d: Settings)
    requires Acceptable(raw) && Applied(c, raw, d)
    ensures if "jwks_rotation_policy" in raw then raw["jwks_rotation_policy"] == TString(d.jwksRotationPolicy)
            else d.jwksRotationPolicy == c.jwksRotationPolicy
    ensures if "log_level" in raw then raw["log_level"] == TString(d.logLevel) else d.logLevel == c.logLevel
    ensures if "nats_workspace_id" in raw then raw["nats_workspace_id"] == TString(d.natsWorkspaceId)
            else d.natsWorkspaceId == c.natsWorkspaceId
  {
    assert AppliedAt(c, raw, d, "jwks_rotation_policy");
    assert AppliedAt(c, raw, d, "log_level");
    assert AppliedAt(c, raw, d, "nats_workspace_id");
  }

  lemma NumbersUpdated(c: Settings, raw: map<string, Toml>, d: Settings)
    requires Acceptable(raw) && Applied(c, raw, d)
    ensures if "brute_force_threshold" in raw then Counts(raw["brute_force_threshold"], d.bruteForceThreshold)
            else d.bruteForceThreshold == c.bruteForceThreshold
    ensures if "brute_force_window_sec" in raw then Counts(raw["brute_force_window_sec"], d.bruteForceWindowSec)
            else d.bruteForceWindowSec == c.bruteForceWindowSec
  {
    assert AppliedAt(c, raw, d, "brute_force_threshold");
    assert AppliedAt(c, raw, d, "brute_force_window_sec");
    if "brute_force_threshold" in raw {
      NumberSet("brute_force_threshold", raw["brute_force_threshold"], d.bruteForceThreshold);
    }
    if "brute_force_window_sec" in raw {
      NumberSet("brute_force_window_sec", raw["brute_force_window_sec"], d.bruteForceWindowSec);
    }
  }

  lemma PatternsUpdated(c: Settings, raw: map<string, Toml>, d: Settings)
    requires Acceptable(raw) && Applied(c, raw, d)
    ensures if "redaction_patterns" in raw then Lists(raw["redaction_patterns"], d.redactionPatterns)
            else d.redactionPatterns == c.redactionPatterns
  {
    assert AppliedAt(c, raw, d, "redaction_patterns");
    if "redaction_patterns" in raw {
      PatternsSet(raw["redaction_patterns"], d.redactionPatterns);
    }
  }

  /** Applying an acceptable payload updates the settings that its keys name, each from its own key. */
  lemma AppliedUpdates(c: Settings, raw: map<string, Toml>, d: Settings)
    requires Acceptable(raw) && Applied(c, raw, d)
    ensures Updated(c, raw, d)
  {
    TextsUpdated(c, raw, d);
    NumbersUpdated(c, raw, d);
    PatternsUpdated(c, raw, d);
  }

  // ----- Reasons -----

  /** Why a value does not fit its key. */
  function TypeReason(key: string, v: Toml): string {
    "type_error:" + key + " expected " +
    if key in {"brute_force_threshold", "brute_force_window_sec"} then "int"
    else if key != "redaction_patterns" then "string"
    else if v.TArray? then "array of string" else "array"
  }

  /** Why a key is refused whatever its value. */
  function KeyReason(key: string): string {
    (if key in NOT_RELOADABLE then "non_reloadable_key:" else "unknown_key:") + key
  }

  /** The texts of the reasons. */
  lemma ReasonTexts(key: string, v: Toml)
    ensures KeyReason(key) == (if key == "signing_key" || key == "postgres_url" then "non_reloadable_key:" + key
                               else "unknown_key:" + key)
    ensures key == "brute_force_threshold" || key == "brute_force_window_sec" ==>
              TypeReason(key, v) == "type_error:" + key + " expected int"
    ensures key == "jwks_rotation_policy" || key == "log_level" || key == "nats_workspace_id" ==>
              TypeReason(key, v) == "type_error:" + key + " expected string"
    ensures key == "redaction_patterns" ==>
              TypeReason(key, v) == "type_error:" + key + " expected array" + if v.TArray? then " of string" else ""
  {
    assert "type_error:" + key + " expected " + "int" == "type_error:" + key + " expected int";
    assert "type_error:" + key + " expected " + "string" == "type_error:" + key + " expected string";
    assert "type_error:" + key + " expected " + "array" == "type_error:" + key + " expected array" + "";
    assert "type_error:" + key + " expected " + "array of string" == "type_error:" + key + " expected array" + " of string";
  }

  method ReadStrings(items: seq<Toml>) returns (r: Option<seq<string>>)
    ensures r == Strings(items)
  {
    var out := [];
    for i := 0 to |items|
      invariant Strings(items[..i]) == Some(out)
    {
      assert items[..i + 1][..i] == items[..i];
      if !items[i].TString? {
        StringsPrefix(items, i + 1);
        return None;
      }
      out := out + [items[i].s];
    }
    assert items[..|items|] == items;
    return Some(out);
  }

  lemma {:induction false} StringsPrefix(items: seq<Toml>, n: nat)
    requires n <= |items| && Strings(items[..n]).None?
    ensures Strings(items).None?
  {
    if n < |items| {
      assert items[..|items| - 1][..n] == items[..n];
      StringsPrefix(items[..|items| - 1], n);
    } else {
      assert items[..n] == items;
    }
  }

  /** applyKey: the new settings, or the reason why not. */
  method ApplyKey(c: Settings, key: string, v: Toml) returns (r: Option<Settings>, reason: string)
    ensures r.Some? <==> Meaning(key, v).Some?
    ensures r.Some? ==> Applied(c, map[key := v], r.value)
    ensures r.None? && key in RELOADABLE ==> reason == TypeReason(key, v)
  {
    reason := "type_error:" + key + " expected ";
    match key
    case "jwks_rotation_policy" =>
      if !v.TString? {
        return None, reason + "string";
      }
      return Some(c.(jwksRotationPolicy := v.s)), "";
    case "brute_force_threshold" =>
      if !v.TInt? && !v.TFloat? {
        return None, reason + "int";
      }
      return Some(c.(bruteForceThreshold := if v.TInt? then v.n else Trunc(v.r))), "";
    case "brute_force_window_sec" =>
      if !v.TInt? && !v.TFloat? {
        return None, reason + "int";
      }
      return Some(c.(bruteForceWindowSec := if v.TInt? then v.n else Trunc(v.r))), "";
    case "log_level" =>
      if !v.TString? {
        return None, reason + "string";
      }
      return Some(c.(logLevel := v.s)), "";
    case "nats_workspace_id" =>
      if !v.TString? {
        return None, reason + "string";
      }
      return Some(c.(natsWorkspaceId := v.s)), "";
    case "redaction_patterns" =>
      if !v.TArray? {
        return None, reason + "array";
      }
      var ss := ReadStrings(v.items);
      if ss.None? {
        return None, reason + "array of string";
      }
      return Some(c.(redactionPatterns := Of(ss.value))), "";
    case _ =>
      return None, "unknown_key:" + key;
  }

  lemma ApplyOneMore(c: Settings, raw: map<string, Toml>, key: string, d: Settings, e: Settings)
    requires key !in raw && Applied(c, raw, d)
    ensures forall v :: Applied(d, map[key := v], e) ==> Applied(c, raw[key := v], e)
  {
  }

  lemma OneKeyFewer(raw: map<string, Toml>, rest: set<string>, key: string)
    requires key in rest && key in raw
    ensures raw - (rest - {key}) == (raw - rest)[key := raw[key]]
  {
  }

  class ConfigReloader {
    var current: Settings

    constructor (initial: Settings)
      ensures current == initial
    {
      current := initial;
    }

    /** A key outside the allowlist, if there is one; which one is not determined. */
    method FindRefused(raw: map<string, Toml>) returns (bad: Option<string>)
      ensures bad.Some? ==> bad.value in raw && bad.value !in RELOADABLE
      ensures bad.None? ==> raw.Keys <= RELOADABLE
    {
      var rest := raw.Keys;
      while rest != {}
        invariant rest <= raw.Keys && raw.Keys - rest <= RELOADABLE
        decreases rest
      {
        var k :| k in rest;
        if k in NOT_RELOADABLE || k !in RELOADABLE {
          return Some(k);
        }
        rest := rest - {k};
      }
      return None;
    }

    /** Applies all keys to a copy, in whatever order; None with a reason at the first one of the wrong type. */
    method BuildCandidate(c: Settings, raw: map<string, Toml>) returns (r: Option<Settings>, reason: string)
      ensures r.Some? <==> Acceptable(raw)
      ensures r.Some? ==> Applied(c, raw, r.value)
      ensures r.None? && raw.Keys <= RELOADABLE ==>
                exists k :: k in raw && Meaning(k, raw[k]).None? && reason == TypeReason(k, raw[k])
    {
      var candidate, rest := c, raw.Keys;
      while rest != {}
        invariant rest <= raw.Keys
        invariant Acceptable(raw - rest) && Applied(c, raw - rest, candidate)
        decreases rest
      {
        var k :| k in rest;
        var next, why := ApplyKey(candidate, k, raw[k]);
        if next.None? {
          return None, why;
        }
        ApplyOneMore(c, raw - rest, k, candidate, next.value);
        OneKeyFewer(raw, rest, k);
        candidate, rest := next.value, rest - {k};
      }
      assert raw - {} == raw;
      return Some(candidate), "";
    }

    /**
     All or nothing: the payload is applied as a whole exactly if every key is
     reloadable and every value has its type; neither that nor the result
     depends on the order of iteration.
     */
    method ApplyReload(req: Request) returns (r: Outcome)
      modifies this
      ensures r.Reloaded? <==> req.payload.Some? && Acceptable(req.payload.value)
      ensures r.Reloaded? <==> req.payload.Some? && forall k :: k in req.payload.value ==> Fits(k, req.payload.value[k])
      ensures r.Reloaded? ==> Applied(old(current), req.payload.value, current)
      ensures r.Reloaded? ==> Updated(old(current), req.payload.value, current)
      ensures r.Failed? ==> current == old(current)
      ensures r.Failed? && req.payload.None? ==> r.reason == "malformed_toml"
      ensures r.Failed? && req.payload.Some? && !(req.payload.value.Keys <= RELOADABLE) ==>
                exists k :: k in req.payload.value && k !in RELOADABLE && r.reason == KeyReason(k)
      ensures r.Failed? && req.payload.Some? && req.payload.value.Keys <= RELOADABLE ==>
                var raw := req.payload.value;
                exists k :: k in raw && Meaning(k, raw[k]).None? && r.reason == TypeReason(k, raw[k])
      ensures r.keys == SortedKeys(if req.payload.Some? then req.payload.value.Keys else req.partial.Keys)
    {
      if req.payload.None? {
        var decoded := CollectSorted(req.partial.Keys);
        return Failed(decoded, "malformed_toml");
      }
      var raw := req.payload.value;
      AcceptableExactly(raw);
      var keys := CollectSorted(raw.Keys);
      var bad := FindRefused(raw);
      if bad.Some? {
        MeaningIsReloadable(bad.value, raw[bad.value]);
        return Failed(keys, KeyReason(bad.value));
      }
      var candidate, why := BuildCandidate(current, raw);
      if candidate.None? {
        return Failed(keys, why);
      }
      AppliedUpdates(current, raw, candidate.value);
      current := candidate.value;
      return Reloaded(keys);
    }
  }
}
