/** What the detector remembers and raises over every sequence of failures. */
module DetectorRuns {
  import opened Protocol
  import opened Text
  import opened GoInt
  import opened Detector

  datatype Failure = Failure(client: string, at: int)

  /** The detector after the first n failures. */
  function After(rule: Rule, evs: seq<Failure>, n: nat): State
    requires n <= |evs|
  {
    if n == 0 then State(map[], {}) else Record(rule, After(rule, evs, n - 1), evs[n - 1].client, evs[n - 1].at)
  }

  /** The alert raised by failure n. */
  function AlertAt(rule: Rule, evs: seq<Failure>, n: nat): Option<Alert>
    requires n < |evs|
  {
    Raises(rule, After(rule, evs, n), evs[n].client, evs[n].at)
  }

  // ----- The remembered timestamps -----

  /** No later failure of the same client, up to n, had a cutoff beyond timestamp i. */
  ghost predicate Survives(rule: Rule, evs: seq<Failure>, i: nat, n: nat)
    requires i < n <= |evs|
  {
    forall j :: i < j < n && evs[j].client == evs[i].client ==> evs[j].at - rule.window <= evs[i].at
  }

  /** The client's timestamps among the first i failures that survive all n, in order. */
  ghost function Kept(rule: Rule, evs: seq<Failure>, client: string, i: nat, n: nat): seq<int>
    requires i <= n <= |evs|
  {
    if i == 0 then []
    else Kept(rule, evs, client, i - 1, n) +
         if evs[i - 1].client == client && Survives(rule, evs, i - 1, n) then [evs[i - 1].at] else []
  }

  lemma PruneSnoc(ts: seq<int>, t: int, cutoff: int)
    ensures Prune(ts + [t], cutoff) == Prune(ts, cutoff) + if t < cutoff then [] else [t]
  {
    assert (ts + [t])[..|ts|] == ts;
  }

  lemma KeptLast(rule: Rule, evs: seq<Failure>, client: string, i: nat, n: nat)
    requires 0 < i <= n <= |evs|
    ensures Kept(rule, evs, client, i, n) ==
            if evs[i - 1].client == client && Survives(rule, evs, i - 1, n)
            then Kept(rule, evs, client, i - 1, n) + [evs[i - 1].at] else Kept(rule, evs, client, i - 1, n)
  {
  }

  lemma SurvivesNext(rule: Rule, evs: seq<Failure>, i: nat, n: nat)
    requires i < n < |evs|
    ensures Survives(rule, evs, i, n + 1) <==>
            Survives(rule, evs, i, n) && (evs[n].client == evs[i].client ==> evs[n].at - rule.window <= evs[i].at)
  {
  }

  /** Two lists, one the other pruned, that both go on with the next timestamp if it survives. */
  lemma PruneGrown(before: seq<int>, after: seq<int>, before': seq<int>, after': seq<int>, t: int, cutoff: int,
                   prunes: bool, grows: bool, grows': bool)
    requires after == if prunes then Prune(before, cutoff) else before
    requires before' == if grows then before + [t] else before
    requires after' == if grows' then after + [t] else after
    requires grows' <==> grows && (prunes ==> cutoff <= t)
    ensures after' == if prunes then Prune(before', cutoff) else before'
  {
    PruneSnoc(before, t, cutoff);
  }

  lemma KeptBoth(rule: Rule, evs: seq<Failure>, client: string, i: nat, n: nat) returns (grows: bool, grows': bool)
    requires 0 < i <= n < |evs|
    ensures Kept(rule, evs, client, i, n) ==
            if grows then Kept(rule, evs, client, i - 1, n) + [evs[i - 1].at] else Kept(rule, evs, client, i - 1, n)
    ensures Kept(rule, evs, client, i, n + 1) ==
            if grows' then Kept(rule, evs, client, i - 1, n + 1) + [evs[i - 1].at] else Kept(rule, evs, client, i - 1, n + 1)
    ensures grows' <==> grows && (evs[n].client == client ==> evs[n].at - rule.window <= evs[i - 1].at)
  {
    grows := evs[i - 1].client == client && Survives(rule, evs, i - 1, n);
    grows' := evs[i - 1].client == client && Survives(rule, evs, i - 1, n + 1);
    SurvivesNext(rule, evs, i - 1, n);
  }

  /** A failure of the client prunes what was kept, one of another client leaves it alone. */
  lemma {:induction false} KeptStep(rule: Rule, evs: seq<Failure>, client: string, i: nat, n: nat)
    requires i <= n < |evs|
    ensures Kept(rule, evs, client, i, n + 1) ==
            if evs[n].client == client then Prune(Kept(rule, evs, client, i, n), evs[n].at - rule.window)
            else Kept(rule, evs, client, i, n)
  {
    if i > 0 {
      var before, after := Kept(rule, evs, client, i - 1, n), Kept(rule, evs, client, i - 1, n + 1);
      var cutoff := evs[n].at - rule.window;
      var own := evs[n].client == client;
      assert after == if own then Prune(before, cutoff) else before by {
        KeptStep(rule, evs, client, i - 1, n);
      }
      var grows, grows' := KeptBoth(rule, evs, client, i, n);
      PruneGrown(before, after, Kept(rule, evs, client, i, n), Kept(rule, evs, client, i, n + 1), evs[i - 1].at, cutoff,
                 own, grows, grows');
    }
  }

  lemma KeptNext(rule: Rule, evs: seq<Failure>, client: string, n: nat, kept: seq<int>)
    requires n < |evs| && kept == Kept(rule, evs, client, n, n)
    ensures Kept(rule, evs, client, n + 1, n + 1) ==
            if evs[n].client == client then Prune(kept, evs[n].at - rule.window) + [evs[n].at] else kept
  {
    KeptStep(rule, evs, client, n, n);
    KeptLast(rule, evs, client, n + 1, n + 1);
  }

  lemma RecordTimes(rule: Rule, s: State, c: string, at: int, client: string, t: State)
    requires t == Record(rule, s, c, at)
    ensures t.Times(client) == if c == client then Prune(s.Times(c), at - rule.window) + [at] else s.Times(client)
  {
  }

  lemma RecordAlerted(rule: Rule, s: State, c: string, at: int, key: string)
    ensures key in Record(rule, s, c, at).alerted <==>
            key in s.alerted || (Raises(rule, s, c, at).Some? && key == AlertKey(c, Raises(rule, s, c, at).value.bucket))
    ensures Raises(rule, s, c, at).Some? ==> Raises(rule, s, c, at).value.client == c
  {
  }

  lemma TimesStep(rule: Rule, evs: seq<Failure>, client: string, n: nat, s: State, t: State)
    requires n < |evs| && s.Times(client) == Kept(rule, evs, client, n, n)
    requires t == Record(rule, s, evs[n].client, evs[n].at)
    ensures t.Times(client) == Kept(rule, evs, client, n + 1, n + 1)
  {
    var kept := s.Times(client);
    assert Kept(rule, evs, client, n + 1, n + 1) ==
           if evs[n].client == client then Prune(kept, evs[n].at - rule.window) + [evs[n].at] else kept by {
      KeptNext(rule, evs, client, n, kept);
    }
    assert t.Times(client) == if evs[n].client == client then Prune(kept, evs[n].at - rule.window) + [evs[n].at] else kept by {
      RecordTimes(rule, s, evs[n].client, evs[n].at, client, t);
    }
  }

  /** After any failures in any order the list of a client holds exactly its surviving timestamps, in order. */
  lemma {:induction false} TimesAreKept(rule: Rule, evs: seq<Failure>, client: string, n: nat)
    requires n <= |evs|
    ensures After(rule, evs, n).Times(client) == Kept(rule, evs, client, n, n)
  {
    if n > 0 {
      var m := n - 1;
      var s := After(rule, evs, m);
      assert s.Times(client) == Kept(rule, evs, client, m, m) by {
        TimesAreKept(rule, evs, client, m);
      }
      TimesStep(rule, evs, client, m, s, After(rule, evs, n));
    }
  }

  /** The client's timestamps from lo on among the first i failures. */
  ghost function Since(evs: seq<Failure>, client: string, lo: int, i: nat): seq<int>
    requires i <= |evs|
  {
    if i == 0 then []
    else Since(evs, client, lo, i - 1) + if evs[i - 1].client == client && lo <= evs[i - 1].at then [evs[i - 1].at] else []
  }

  /** The client's timestamps do not go back. */
  ghost predicate Ordered(evs: seq<Failure>, client: string) {
    forall i, j :: 0 <= i < j < |evs| && evs[i].client == evs[j].client == client ==> evs[i].at <= evs[j].at
  }

  /** With ordered timestamps the last cutoff is the one that counts. */
  lemma SurvivesExactly(rule: Rule, evs: seq<Failure>, i: nat, n: nat)
    requires i < n < |evs| && evs[i].client == evs[n].client && Ordered(evs, evs[n].client)
    ensures Survives(rule, evs, i, n + 1) <==> evs[n].at - rule.window <= evs[i].at
  {
  }

  lemma {:induction false} KeptIsSince(rule: Rule, evs: seq<Failure>, client: string, i: nat, n: nat)
    requires i <= n < |evs| && evs[n].client == client && Ordered(evs, client) && rule.window >= 0
    ensures Kept(rule, evs, client, i, n + 1) == Since(evs, client, evs[n].at - rule.window, i)
  {
    if i > 0 {
      KeptIsSince(rule, evs, client, i - 1, n);
      KeptLast(rule, evs, client, i, n + 1);
      if evs[i - 1].client == client {
        SurvivesExactly(rule, evs, i - 1, n);
      }
    }
  }

  /** The list just after failure n is its client's failures of the closed window, of this many seconds, that ends there. */
  ghost predicate WindowIs(rule: Rule, seconds: int, evs: seq<Failure>, n: nat)
    requires n < |evs|
  {
    After(rule, evs, n + 1).Times(evs[n].client) == Since(evs, evs[n].client, evs[n].at - seconds * SECOND, n + 1)
  }

  lemma WindowOfRule(rule: Rule, evs: seq<Failure>, n: nat)
    requires rule.window >= 0 && n < |evs| && Ordered(evs, evs[n].client)
    ensures After(rule, evs, n + 1).Times(evs[n].client) == Since(evs, evs[n].client, evs[n].at - rule.window, n + 1)
  {
    var client := evs[n].client;
    TimesAreKept(rule, evs, client, n + 1);
    KeptLast(rule, evs, client, n + 1, n + 1);
    KeptIsSince(rule, evs, client, n, n);
  }

  /** The longest window that a time.Duration can hold; beyond it the product wraps to a shorter one, or a negative one. */
  const MAX_WINDOW := 9223372036

  lemma WindowWraps(cfg: Config)
    requires cfg.Valid()
    ensures cfg.windowSec <= MAX_WINDOW ==> cfg.ToRule().window == cfg.windowSec * SECOND
    ensures cfg.windowSec > MAX_WINDOW ==> cfg.ToRule().window < cfg.windowSec * SECOND
  {
  }

  /** Two failures one window apart, of which the first is forgotten when the window has wrapped. */
  lemma ForgetsTooEarly(rule: Rule, seconds: int, client: string)
    requires 0 < seconds && rule.window < seconds * SECOND
    ensures var evs := [Failure(client, 0), Failure(client, seconds * SECOND)];
            Ordered(evs, client) && !WindowIs(rule, seconds, evs, 1)
  {
    var at := seconds * SECOND;
    var evs := [Failure(client, 0), Failure(client, at)];
    TimesAreKept(rule, evs, client, 2);
    assert !Survives(rule, evs, 0, 2) by {
      assert evs[1].at - rule.window > evs[0].at;
    }
    KeptLast(rule, evs, client, 1, 2);
    KeptLast(rule, evs, client, 2, 2);
    assert |Kept(rule, evs, client, 2, 2)| <= 1;
    assert Since(evs, client, 0, 1) == [0];
    assert Since(evs, client, 0, 2) == [0] + [at];
  }

  /** In every run, for every client whose timestamps do not go back, the list after a failure is that window. */
  ghost predicate AlwaysExact(rule: Rule, seconds: int) {
    forall evs: seq<Failure>, n: nat :: n < |evs| && Ordered(evs, evs[n].client) ==> WindowIs(rule, seconds, evs, n)
  }

  lemma ExactWithWholeWindow(rule: Rule, seconds: int)
    requires 0 < seconds && rule.window == seconds * SECOND
    ensures AlwaysExact(rule, seconds)
  {
    forall evs: seq<Failure>, n: nat | n < |evs| && Ordered(evs, evs[n].client) ensures WindowIs(rule, seconds, evs, n) {
      WindowOfRule(rule, evs, n);
    }
  }

  lemma InexactWithShorterWindow(rule: Rule, seconds: int)
    requires 0 < seconds && rule.window < seconds * SECOND
    ensures !AlwaysExact(rule, seconds)
  {
    ForgetsTooEarly(rule, seconds, "");
    var evs := [Failure("", 0), Failure("", seconds * SECOND)];
    assert evs[1].client == "" && !WindowIs(rule, seconds, evs, 1);
  }

  /** That is so if and only if the setting is at most 9223372036 seconds. */
  lemma WindowIsExact(cfg: Config)
    requires cfg.Valid()
    ensures AlwaysExact(cfg.ToRule(), cfg.windowSec) <==> cfg.windowSec <= MAX_WINDOW
  {
    WindowWraps(cfg);
    if cfg.windowSec <= MAX_WINDOW {
      ExactWithWholeWindow(cfg.ToRule(), cfg.windowSec);
    } else {
      InexactWithShorterWindow(cfg.ToRule(), cfg.windowSec);
    }
  }

  /** With a window that has wrapped below zero no list ever holds more than the failure just made. */
  lemma NegativeWindowForgets(rule: Rule, evs: seq<Failure>, n: nat)
    requires rule.window < 0 && n < |evs| && Ordered(evs, evs[n].client)
    ensures After(rule, evs, n + 1).Times(evs[n].client) == [evs[n].at]
  {
    var client := evs[n].client;
    TimesAreKept(rule, evs, client, n + 1);
    KeptLast(rule, evs, client, n + 1, n + 1);
    NothingKept(rule, evs, client, n, n);
  }

  lemma {:induction false} NothingKept(rule: Rule, evs: seq<Failure>, client: string, i: nat, n: nat)
    requires i <= n < |evs| && evs[n].client == client && Ordered(evs, client) && rule.window < 0
    ensures Kept(rule, evs, client, i, n + 1) == []
  {
    if i > 0 {
      NothingKept(rule, evs, client, i - 1, n);
      assert evs[i - 1].client == client ==> evs[n].at - rule.window > evs[i - 1].at;
    }
  }

  // ----- Alerts -----

  lemma AlertKeyInjective(c: string, a: int, d: string, b: int)
    requires AlertKey(c, a) == AlertKey(d, b)
    ensures c == d && a == b
  {
    LastSeparator(c, IntText(a), d, IntText(b), '|');
    IntTextInjective(a, b);
  }

  /** All alerts of a run, in order. */
  ghost function AlertsOf(rule: Rule, evs: seq<Failure>): seq<Option<Alert>> {
    seq(|evs|, i requires 0 <= i < |evs| => AlertAt(rule, evs, i))
  }

  predicate IsFor(alert: Option<Alert>, client: string, bucket: int) {
    alert.Some? && alert.value.client == client && alert.value.bucket == bucket
  }

  /** One of the first n alerts is for this client and bucket. */
  ghost predicate Raised(alerts: seq<Option<Alert>>, n: nat, client: string, bucket: int)
    requires n <= |alerts|
  {
    exists i :: 0 <= i < n && IsFor(alerts[i], client, bucket)
  }

  /** From one dedup table to the next, the key appears only with an alert. */
  ghost predicate Adds(before: set<string>, after: set<string>, key: string, raised: bool) {
    key in after <==> key in before || raised
  }

  lemma AlertedStep(rule: Rule, s: State, ev: Failure, client: string, bucket: int)
    ensures Adds(s.alerted, Record(rule, s, ev.client, ev.at).alerted, AlertKey(client, bucket),
                 IsFor(Raises(rule, s, ev.client, ev.at), client, bucket))
  {
    var alert := Raises(rule, s, ev.client, ev.at);
    RecordAlerted(rule, s, ev.client, ev.at, AlertKey(client, bucket));
    if alert.Some? && AlertKey(client, bucket) == AlertKey(ev.client, alert.value.bucket) {
      AlertKeyInjective(client, bucket, ev.client, alert.value.bucket);
    }
  }

  /** A key is in the table exactly if an alert put it there. */
  lemma {:induction false} Accumulate(tables: seq<set<string>>, alerts: seq<Option<Alert>>, n: nat, key: string,
                                      client: string, bucket: int)
    requires n <= |alerts| && |tables| == |alerts| + 1 && key !in tables[0]
    requires forall i :: 0 <= i < |alerts| ==> Adds(tables[i], tables[i + 1], key, IsFor(alerts[i], client, bucket))
    ensures key in tables[n] <==> Raised(alerts, n, client, bucket)
  {
    if n > 0 {
      Accumulate(tables, alerts, n - 1, key, client, bucket);
      assert Adds(tables[n - 1], tables[n], key, IsFor(alerts[n - 1], client, bucket));
    }
  }

  ghost function TablesOf(rule: Rule, evs: seq<Failure>): seq<set<string>> {
    seq(|evs| + 1, i requires 0 <= i <= |evs| => After(rule, evs, i).alerted)
  }

  lemma TablesAdd(rule: Rule, evs: seq<Failure>, i: nat, client: string, bucket: int)
    requires i < |evs|
    ensures Adds(TablesOf(rule, evs)[i], TablesOf(rule, evs)[i + 1], AlertKey(client, bucket),
                 IsFor(AlertsOf(rule, evs)[i], client, bucket))
  {
    AlertedStep(rule, After(rule, evs, i), evs[i], client, bucket);
  }

  /** The dedup table holds the key of a pair exactly if an alert was raised for that pair, '|' in a client id or not. */
  lemma AlertedMeaning(rule: Rule, evs: seq<Failure>, n: nat, client: string, bucket: int)
    requires n <= |evs|
    ensures AlertKey(client, bucket) in After(rule, evs, n).alerted <==> Raised(AlertsOf(rule, evs), n, client, bucket)
  {
    var tables, alerts := TablesOf(rule, evs), AlertsOf(rule, evs);
    forall i | 0 <= i < |evs|
      ensures Adds(tables[i], tables[i + 1], AlertKey(client, bucket), IsFor(alerts[i], client, bucket))
    {
      TablesAdd(rule, evs, i, client, bucket);
    }
    Accumulate(tables, alerts, n, AlertKey(client, bucket), client, bucket);
  }

  /**
   A failure raises an alert exactly when it brings its client to the threshold
   and no earlier failure raised one for the same client and bucket; the alert
   reports the surviving timestamps.
   */
  lemma AlertMeaning(rule: Rule, evs: seq<Failure>, n: nat)
    requires n < |evs|
    ensures var client := evs[n].client;
            var times := Kept(rule, evs, client, n + 1, n + 1);
            && times != []
            && AlertAt(rule, evs, n) ==
               if |times| >= rule.threshold && !Raised(AlertsOf(rule, evs), n, client, rule.bucket(times[0]))
               then Some(Alert(client, rule.bucket(times[0]), |times|, times[0], evs[n].at)) else None
  {
    var client := evs[n].client;
    var times := Kept(rule, evs, client, n + 1, n + 1);
    TimesAreKept(rule, evs, client, n + 1);
    assert times == Fresh(rule, After(rule, evs, n), client, evs[n].at);
    AlertedMeaning(rule, evs, n, client, rule.bucket(times[0]));
  }

  lemma RaisedNext(alerts: seq<Option<Alert>>, n: nat, client: string, bucket: int)
    requires n < |alerts|
    ensures Raised(alerts, n + 1, client, bucket) <==> Raised(alerts, n, client, bucket) || IsFor(alerts[n], client, bucket)
  {
    if Raised(alerts, n, client, bucket) {
      var i :| 0 <= i < n && IsFor(alerts[i], client, bucket);
    }
  }

  /** One second beyond the longest window the detector never alerts, unless one failure is enough. */
  lemma WrappedWindowNeverAlerts(threshold: int, evs: seq<Failure>, n: nat)
    requires threshold > 1 && n < |evs| && Ordered(evs, evs[n].client)
    ensures Config(threshold, MAX_WINDOW + 1).Valid()
    ensures AlertAt(Config(threshold, MAX_WINDOW + 1).ToRule(), evs, n) == None
  {
    var rule := Config(threshold, MAX_WINDOW + 1).ToRule();
    assert rule.window < 0;
    NegativeWindowForgets(rule, evs, n);
    TimesAreKept(rule, evs, evs[n].client, n + 1);
    AlertMeaning(rule, evs, n);
  }

  /** A failure that reaches the threshold leaves its pair alerted, by itself or by an earlier one. */
  lemma ThresholdIsAlerted(rule: Rule, evs: seq<Failure>, n: nat)
    requires n < |evs|
    requires |Kept(rule, evs, evs[n].client, n + 1, n + 1)| >= rule.threshold
    ensures Raised(AlertsOf(rule, evs), n + 1, evs[n].client,
                   rule.bucket(Kept(rule, evs, evs[n].client, n + 1, n + 1)[0]))
  {
    AlertMeaning(rule, evs, n);
    var alerts, client := AlertsOf(rule, evs), evs[n].client;
    var bucket := rule.bucket(Kept(rule, evs, client, n + 1, n + 1)[0]);
    RaisedNext(alerts, n, client, bucket);
  }

  lemma RaisedBefore(alerts: seq<Option<Alert>>, i: nat, n: nat, client: string, bucket: int)
    requires i < n <= |alerts|
    ensures IsFor(alerts[i], client, bucket) ==> Raised(alerts, n, client, bucket)
  {
  }

  /** No pair of client and bucket alerts twice. */
  lemma AlertsAreUnique(rule: Rule, evs: seq<Failure>, i: nat, j: nat)
    requires i < j < |evs| && AlertAt(rule, evs, i).Some? && AlertAt(rule, evs, j).Some?
    ensures var a, b := AlertAt(rule, evs, i).value, AlertAt(rule, evs, j).value;
            a.client != b.client || a.bucket != b.bucket
  {
    var b := AlertAt(rule, evs, j).value;
    AlertMeaning(rule, evs, j);
    RaisedBefore(AlertsOf(rule, evs), i, j, b.client, b.bucket);
  }

  // ----- How many alerts -----

  lemma {:induction false} KeptRange(rule: Rule, evs: seq<Failure>, client: string, i: nat, n: nat, k: nat, lo: int, hi: int)
    requires i <= n <= |evs| && k < |Kept(rule, evs, client, i, n)|
    requires forall j :: 0 <= j < i && evs[j].client == client ==> lo <= evs[j].at <= hi
    ensures lo <= Kept(rule, evs, client, i, n)[k] <= hi
  {
    if k < |Kept(rule, evs, client, i - 1, n)| {
      KeptRange(rule, evs, client, i - 1, n, k, lo, hi);
    }
  }

  lemma Times(w: int, p: int, q: int)
    requires 0 < w
    ensures p >= q ==> w * p >= w * q
  {
  }

  lemma QuotientMonotone(s: int, t: int, w: int)
    requires 0 < w && s <= t
    ensures s / w <= t / w
  {
    var p, q := s / w, t / w;
    Times(w, p, q + 1);
    assert w * (q + 1) == w * q + w;
  }

  ghost predicate Monotone(f: int -> int) {
    forall s, t :: s <= t ==> f(s) <= f(t)
  }

  lemma BucketsAreMonotone(cfg: Config)
    requires cfg.Valid()
    ensures Monotone(cfg.ToRule().bucket)
  {
    forall s, t | s <= t ensures cfg.ToRule().bucket(s) <= cfg.ToRule().bucket(t) {
      BucketMonotone(s, t, cfg.windowSec);
    }
  }

  lemma BucketMonotone(s: int, t: int, w: int)
    requires 0 < w && s <= t
    ensures TruncDiv(Unix(s), w) <= TruncDiv(Unix(t), w)
  {
    var u, v := Unix(s), Unix(t);
    QuotientMonotone(s, t, SECOND);
    if 0 <= u {
      QuotientMonotone(u, v, w);
    } else if v < 0 {
      QuotientMonotone(-v, -u, w);
    } else {
      QuotientMonotone(0, v, w);
      QuotientMonotone(0, -u, w);
    }
  }

  /** The buckets of a client in a list of alerts, and how many alerts it had. */
  ghost function Buckets(alerts: seq<Option<Alert>>, client: string): set<int> {
    set i | 0 <= i < |alerts| && alerts[i].Some? && alerts[i].value.client == client :: alerts[i].value.bucket
  }

  ghost function AlertCount(alerts: seq<Option<Alert>>, client: string): nat {
    if alerts == [] then 0
    else
      var last := alerts[|alerts| - 1];
      AlertCount(alerts[..|alerts| - 1], client) + if last.Some? && last.value.client == client then 1 else 0
  }

  ghost predicate UniqueFor(alerts: seq<Option<Alert>>, client: string) {
    forall i, j :: 0 <= i < j < |alerts| && alerts[i].Some? && alerts[j].Some? &&
                   alerts[i].value.client == alerts[j].value.client == client ==>
                     alerts[i].value.bucket != alerts[j].value.bucket
  }

  lemma CountNext(before: seq<Option<Alert>>, a: Option<Alert>, client: string)
    requires UniqueFor(before + [a], client) && AlertCount(before, client) == |Buckets(before, client)|
    ensures AlertCount(before + [a], client) == |Buckets(before + [a], client)|
  {
    var all := before + [a];
    var n := |before|;
    assert all[..n] == before && all[n] == a && forall i :: 0 <= i < n ==> all[i] == before[i];
    if a.Some? && a.value.client == client {
      forall i | 0 <= i < n && all[i].Some? && all[i].value.client == client
        ensures all[i].value.bucket != all[n].value.bucket
      {
      }
      assert a.value.bucket !in Buckets(before, client);
      assert Buckets(all, client) == Buckets(before, client) + {all[n].value.bucket};
    } else {
      assert Buckets(all, client) == Buckets(before, client);
    }
  }

  lemma {:induction false} CountIsBuckets(alerts: seq<Option<Alert>>, client: string)
    requires UniqueFor(alerts, client)
    ensures AlertCount(alerts, client) == |Buckets(alerts, client)|
  {
    if alerts != [] {
      var n := |alerts| - 1;
      CountIsBuckets(alerts[..n], client);
      assert alerts == alerts[..n] + [alerts[n]];
      CountNext(alerts[..n], alerts[n], client);
    }
  }

  lemma {:induction false} AtMostRange(s: set<int>, lo: int, hi: int)
    requires forall x :: x in s ==> lo <= x < hi
    ensures |s| <= if lo < hi then hi - lo else 0
    decreases hi - lo
  {
    if lo < hi {
      AtMostRange(s - {lo}, lo + 1, hi);
    } else {
      assert s == {};
    }
  }

  /** An alert is for a bucket within the span of its client's timestamps. */
  lemma AlertInSpan(rule: Rule, evs: seq<Failure>, n: nat, lo: int, hi: int)
    requires Monotone(rule.bucket) && n < |evs| && AlertAt(rule, evs, n).Some?
    requires forall j :: 0 <= j < |evs| && evs[j].client == evs[n].client ==> lo <= evs[j].at <= hi
    ensures AlertAt(rule, evs, n).value.client == evs[n].client
    ensures rule.bucket(lo) <= AlertAt(rule, evs, n).value.bucket <= rule.bucket(hi)
  {
    AlertMeaning(rule, evs, n);
    KeptRange(rule, evs, evs[n].client, n + 1, n + 1, 0, lo, hi);
  }

  lemma AlertsUniqueFor(rule: Rule, evs: seq<Failure>, client: string)
    ensures UniqueFor(AlertsOf(rule, evs), client)
  {
    forall i, j | 0 <= i < j < |evs| && AlertAt(rule, evs, i).Some? && AlertAt(rule, evs, j).Some?
      ensures var a, b := AlertAt(rule, evs, i).value, AlertAt(rule, evs, j).value;
              a.client != b.client || a.bucket != b.bucket
    {
      AlertsAreUnique(rule, evs, i, j);
    }
  }

  lemma BucketsInSpan(rule: Rule, evs: seq<Failure>, client: string, lo: int, hi: int, b: int)
    requires Monotone(rule.bucket) && b in Buckets(AlertsOf(rule, evs), client)
    requires forall j :: 0 <= j < |evs| && evs[j].client == client ==> lo <= evs[j].at <= hi
    ensures rule.bucket(lo) <= b <= rule.bucket(hi)
  {
    var alerts := AlertsOf(rule, evs);
    var n :| 0 <= n < |alerts| && alerts[n].Some? && alerts[n].value.client == client && alerts[n].value.bucket == b;
    AlertMeaning(rule, evs, n);
    AlertInSpan(rule, evs, n, lo, hi);
  }

  lemma AlertsInSpan(rule: Rule, evs: seq<Failure>, client: string, lo: int, hi: int)
    requires Monotone(rule.bucket) && lo <= hi
    requires forall j :: 0 <= j < |evs| && evs[j].client == client ==> lo <= evs[j].at <= hi
    ensures AlertCount(AlertsOf(rule, evs), client) <= rule.bucket(hi) - rule.bucket(lo) + 1
  {
    var buckets := Buckets(AlertsOf(rule, evs), client);
    AlertsUniqueFor(rule, evs, client);
    CountIsBuckets(AlertsOf(rule, evs), client);
    forall b | b in buckets ensures rule.bucket(lo) <= b <= rule.bucket(hi) {
      BucketsInSpan(rule, evs, client, lo, hi, b);
    }
    AtMostRange(buckets, rule.bucket(lo), rule.bucket(hi) + 1);
  }

  /** Two quotients that round toward zero differ by less than the exact ones do, but for one. */
  lemma QuotientsDiffer(a: int, b: int, w: int)
    requires 0 < w && a <= b
    ensures (TruncDiv(b, w) - TruncDiv(a, w) - 1) * w < b - a
  {
    var p, q := TruncDiv(a, w), TruncDiv(b, w);
    TruncDivMeaning(a, w);
    TruncDivMeaning(b, w);
    assert (q - p - 1) * w == q * w - p * w - w;
    assert (p + 1) * w == p * w + w && (q - 1) * w == q * w - w;
  }

  lemma CountInSeconds(count: nat, span: int, w: int, seconds: int)
    requires 0 < w && count <= span + 1 && (span - 1) * w < seconds
    ensures (count - 2) * w < seconds
  {
    Times(w, span - 1, count - 2);
  }

  /**
   A client's alerts number at most the windows that its timestamps span, counted
   in whole seconds from the epoch outward, so n alerts take more than n - 2 windows.
   */
  lemma AlertsBounded(cfg: Config, evs: seq<Failure>, client: string, lo: int, hi: int)
    requires cfg.Valid() && lo <= hi
    requires forall j :: 0 <= j < |evs| && evs[j].client == client ==> lo <= evs[j].at <= hi
    ensures var count, w := AlertCount(AlertsOf(cfg.ToRule(), evs), client), cfg.windowSec;
            && (0 <= lo ==> count <= Unix(hi) / w - Unix(lo) / w + 1)
            && (lo < 0 <= hi ==> count <= Unix(hi) / w + -Unix(lo) / w + 1)
            && (hi < 0 ==> count <= -Unix(lo) / w - -Unix(hi) / w + 1)
            && (count - 2) * w < Unix(hi) - Unix(lo)
  {
    BucketsAreMonotone(cfg);
    var w := cfg.windowSec;
    var last, first := TruncDiv(Unix(hi), w), TruncDiv(Unix(lo), w);
    var count := AlertCount(AlertsOf(cfg.ToRule(), evs), client);
    assert count <= last - first + 1 by {
      AlertsInSpan(cfg.ToRule(), evs, client, lo, hi);
    }
    UnixMeaning(lo);
    UnixMeaning(hi);
    QuotientMonotone(lo, hi, SECOND);
    QuotientsDiffer(Unix(lo), Unix(hi), w);
    CountInSeconds(count, last - first, w, Unix(hi) - Unix(lo));
  }

  // ----- Alerts in seconds -----

  /** An alert names the window, in seconds from the epoch, of the first failure it reports; below zero windows are mirrored. */
  lemma BucketMeaning(cfg: Config, evs: seq<Failure>, n: nat)
    requires cfg.Valid() && n < |evs| && AlertAt(cfg.ToRule(), evs, n).Some?
    ensures var a, w := AlertAt(cfg.ToRule(), evs, n).value, cfg.windowSec;
            if a.first >= 0 then a.bucket * w <= Unix(a.first) < (a.bucket + 1) * w
            else (a.bucket - 1) * w < Unix(a.first) <= a.bucket * w
  {
    var a := AlertAt(cfg.ToRule(), evs, n).value;
    AlertMeaning(cfg.ToRule(), evs, n);
    UnixMeaning(a.first);
    TruncDivMeaning(Unix(a.first), cfg.windowSec);
  }

  /** Alert i is one of this client that reports a first failure in this window, counted from the epoch. */
  predicate AlertedIn(alert: Option<Alert>, client: string, window: int, windowSec: int)
    requires windowSec > 0
  {
    alert.Some? && alert.value.client == client && Unix(alert.value.first) / windowSec == window
  }

  /** None of the first n failures raised an alert of this client in this window. */
  ghost predicate NoneIn(rule: Rule, evs: seq<Failure>, n: nat, client: string, window: int, windowSec: int)
    requires n <= |evs| && windowSec > 0
  {
    forall i :: 0 <= i < n ==> !AlertedIn(AlertAt(rule, evs, i), client, window, windowSec)
  }

  /** No timestamp is before the epoch. */
  predicate SinceEpoch(evs: seq<Failure>) {
    forall i :: 0 <= i < |evs| ==> evs[i].at >= 0
  }

  lemma AlertAfterEpoch(cfg: Config, evs: seq<Failure>, n: nat)
    requires cfg.Valid() && n < |evs| && SinceEpoch(evs)
    ensures var times := Kept(cfg.ToRule(), evs, evs[n].client, n + 1, n + 1);
            && times != [] && times[0] >= 0
            && cfg.ToRule().bucket(times[0]) == Unix(times[0]) / cfg.windowSec
            && (AlertAt(cfg.ToRule(), evs, n).Some? ==> AlertAt(cfg.ToRule(), evs, n).value.first == times[0])
  {
    var rule, client := cfg.ToRule(), evs[n].client;
    AlertMeaning(rule, evs, n);
    var times := Kept(rule, evs, client, n + 1, n + 1);
    assert times[0] >= 0 by {
      var hi := Largest(evs);
      KeptRange(rule, evs, client, n + 1, n + 1, 0, 0, hi);
    }
    UnixMeaning(times[0]);
  }

  function Largest(evs: seq<Failure>): (hi: int)
    ensures forall i :: 0 <= i < |evs| ==> evs[i].at <= hi
  {
    if evs == [] then 0
    else
      var last, rest := evs[|evs| - 1].at, Largest(evs[..|evs| - 1]);
      if last > rest then last else rest
  }

  /** With timestamps since the epoch, an alert is for a bucket exactly if its first failure lies in that window. */
  lemma InWindow(cfg: Config, evs: seq<Failure>, i: nat, client: string, window: int)
    requires cfg.Valid() && i < |evs| && SinceEpoch(evs)
    ensures IsFor(AlertAt(cfg.ToRule(), evs, i), client, window) <==>
            AlertedIn(AlertAt(cfg.ToRule(), evs, i), client, window, cfg.windowSec)
  {
    AlertMeaning(cfg.ToRule(), evs, i);
    AlertAfterEpoch(cfg, evs, i);
  }

  lemma RaisedInWindow(cfg: Config, evs: seq<Failure>, n: nat, client: string, window: int)
    requires cfg.Valid() && n <= |evs| && SinceEpoch(evs)
    ensures Raised(AlertsOf(cfg.ToRule(), evs), n, client, window) <==>
            !NoneIn(cfg.ToRule(), evs, n, client, window, cfg.windowSec)
  {
    var rule, w := cfg.ToRule(), cfg.windowSec;
    var alerts := AlertsOf(rule, evs);
    forall i | 0 <= i < n
      ensures IsFor(alerts[i], client, window) <==> AlertedIn(AlertAt(rule, evs, i), client, window, w)
    {
      InWindow(cfg, evs, i, client, window);
    }
    if Raised(alerts, n, client, window) {
      var i :| 0 <= i < n && IsFor(alerts[i], client, window);
      assert AlertedIn(AlertAt(rule, evs, i), client, window, w);
    }
  }

  /** What failure n must raise when these are its surviving timestamps: all in seconds. */
  ghost predicate AlertsFor(cfg: Config, evs: seq<Failure>, n: nat, times: seq<int>)
    requires cfg.Valid() && n < |evs|
  {
    var alert, client, w := AlertAt(cfg.ToRule(), evs, n), evs[n].client, cfg.windowSec;
    && times != []
    && (alert.Some? <==> |times| >= cfg.threshold && NoneIn(cfg.ToRule(), evs, n, client, Unix(times[0]) / w, w))
    && (alert.Some? ==> alert.value == Alert(client, Unix(times[0]) / w, |times|, times[0], evs[n].at))
  }

  /**
   A failure raises an alert exactly if its surviving timestamps reach the
   threshold and no earlier alert of the client reports a first failure in the
   same window of the clock.
   */
  lemma AlertInSeconds(cfg: Config, evs: seq<Failure>, n: nat)
    requires cfg.Valid() && n < |evs| && SinceEpoch(evs)
    ensures AlertsFor(cfg, evs, n, Kept(cfg.ToRule(), evs, evs[n].client, n + 1, n + 1))
  {
    var rule, client := cfg.ToRule(), evs[n].client;
    var times := Kept(rule, evs, client, n + 1, n + 1);
    AlertMeaning(rule, evs, n);
    AlertAfterEpoch(cfg, evs, n);
    RaisedInWindow(cfg, evs, n, client, Unix(times[0]) / cfg.windowSec);
  }

  lemma OtherWindow(s: nat, t: nat, w: nat)
    requires 0 < w && s + w <= t
    ensures s / w != t / w
  {
    Quotient(s, w, s / w);
    Quotient(t, w, t / w);
    assert (s / w + 1) * w == s / w * w + w;
  }

  /**
   A client that reaches the threshold again is alerted again, once the first of
   its failures is a window or more after that of each of its earlier alerts.
   */
  lemma AlertsAgain(cfg: Config, evs: seq<Failure>, n: nat)
    requires cfg.Valid() && n < |evs| && SinceEpoch(evs)
    requires var times := Kept(cfg.ToRule(), evs, evs[n].client, n + 1, n + 1);
             && |times| >= cfg.threshold
             && forall i :: 0 <= i < n && AlertAt(cfg.ToRule(), evs, i).Some? &&
                            AlertAt(cfg.ToRule(), evs, i).value.client == evs[n].client ==>
                  Unix(AlertAt(cfg.ToRule(), evs, i).value.first) + cfg.windowSec <= Unix(times[0])
    ensures AlertAt(cfg.ToRule(), evs, n).Some?
  {
    var rule, client, w := cfg.ToRule(), evs[n].client, cfg.windowSec;
    var times := Kept(rule, evs, client, n + 1, n + 1);
    AlertInSeconds(cfg, evs, n);
    AlertAfterEpoch(cfg, evs, n);
    UnixMeaning(times[0]);
    forall i | 0 <= i < n ensures !AlertedIn(AlertAt(rule, evs, i), client, Unix(times[0]) / w, w) {
      var alert := AlertAt(rule, evs, i);
      if alert.Some? && alert.value.client == client {
        AlertAfterEpoch(cfg, evs, i);
        UnixMeaning(alert.value.first);
        OtherWindow(Unix(alert.value.first), Unix(times[0]), w);
      }
    }
  }

  lemma KeptIsWindow(cfg: Config, evs: seq<Failure>, n: nat)
    requires cfg.Valid() && cfg.windowSec <= 9223372036 && n < |evs| && Ordered(evs, evs[n].client)
    ensures Kept(cfg.ToRule(), evs, evs[n].client, n + 1, n + 1) ==
            Since(evs, evs[n].client, evs[n].at - cfg.windowSec * 1_000_000_000, n + 1)
  {
    var rule := cfg.ToRule();
    WindowWraps(cfg);
    WindowOfRule(rule, evs, n);
    TimesAreKept(rule, evs, evs[n].client, n + 1);
  }

  /**
   For timestamps that do not go back and a window that a time.Duration can hold,
   the client's failures in the closed window that ends here decide.
   */
  lemma AlertExactly(cfg: Config, evs: seq<Failure>, n: nat)
    requires cfg.Valid() && cfg.windowSec <= 9223372036
    requires n < |evs| && SinceEpoch(evs) && Ordered(evs, evs[n].client)
    ensures AlertsFor(cfg, evs, n, Since(evs, evs[n].client, evs[n].at - cfg.windowSec * 1_000_000_000, n + 1))
  {
    AlertInSeconds(cfg, evs, n);
    KeptIsWindow(cfg, evs, n);
  }
}
