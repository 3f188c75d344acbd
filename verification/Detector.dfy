/**
 The sliding-window brute-force detector. `Record` is one failure on the
 detector's abstract state; the class keeps each client's timestamps in a slice
 that it compacts in place.
 */
module Detector {
  import opened Protocol
  import opened Text
  import opened GoInt

  /** What decides: how many failures, how far back, and the dedup bucket of the first one. */
  datatype Rule = Rule(threshold: int, window: int, bucket: int -> int)

  /** The settings; both are positive, whatever the environment says. */
  datatype Config = Config(threshold: int, windowSec: int) {
    predicate Valid() {
      0 < threshold && 0 < windowSec && Fits64(windowSec)
    }

    /** The window is multiplied out in a time.Duration, which may wrap; the bucket division rounds toward zero. */
    function ToRule(): Rule
      requires Valid()
    {
      Rule(threshold, -Wrap64(-windowSec * SECOND), first => TruncDiv(Unix(first), windowSec))
    }
  }

  datatype Alert = Alert(client: string, bucket: int, attempts: nat, first: int, last: int)

  datatype State = State(failures: map<string, seq<int>>, alerted: set<string>) {
    function Times(client: string): seq<int> {
      if client in failures then failures[client] else []
    }
  }

  /** The timestamps not before the cutoff, in order. */
  function Prune(ts: seq<int>, cutoff: int): (r: seq<int>)
    ensures |r| <= |ts|
  {
    if ts == [] then []
    else
      var last := ts[|ts| - 1];
      Prune(ts[..|ts| - 1], cutoff) + if last < cutoff then [] else [last]
  }

  function AlertKey(client: string, bucket: int): string {
    client + "|" + IntText(bucket)
  }

  function Fresh(rule: Rule, s: State, client: string, at: int): (r: seq<int>)
    ensures r != []
  {
    Prune(s.Times(client), at - rule.window) + [at]
  }

  /** The alert this failure raises, if any. */
  function Raises(rule: Rule, s: State, client: string, at: int): Option<Alert>
  {
    var kept := Fresh(rule, s, client, at);
    var bucket := rule.bucket(kept[0]);
    if |kept| < rule.threshold || AlertKey(client, bucket) in s.alerted then None
    else Some(Alert(client, bucket, |kept|, kept[0], at))
  }

  function Record(rule: Rule, s: State, client: string, at: int): State
  {
    var alert := Raises(rule, s, client, at);
    State(s.failures[client := Fresh(rule, s, client, at)],
          if alert.None? then s.alerted else s.alerted + {AlertKey(client, alert.value.bucket)})
  }

  /** What a failure does, in terms of the timestamps it leaves and the bucket of the first of them. */
  lemma Recorded(rule: Rule, s: State, client: string, at: int, kept: seq<int>, bucket: int, after: State,
                 alert: Option<Alert>)
    requires kept == Prune(s.Times(client), at - rule.window) + [at] && bucket == rule.bucket(kept[0])
    requires var raised := |kept| >= rule.threshold && AlertKey(client, bucket) !in s.alerted;
             && alert == (if raised then Some(Alert(client, bucket, |kept|, kept[0], at)) else None)
             && after == State(s.failures[client := kept],
                               if raised then s.alerted + {AlertKey(client, bucket)} else s.alerted)
    ensures after == Record(rule, s, client, at) && alert == Raises(rule, s, client, at)
  {
  }

  lemma SameTimes(x: map<string, seq<int>>, y: map<string, seq<int>>)
    requires x.Keys == y.Keys && forall c :: c in x ==> x[c] == y[c]
    ensures x == y
  {
  }

  // ----- The implementation -----

  /** A Go slice header: a backing array, whose length is the capacity, and how much of it is in use. */
  datatype Header = Header(data: array<int>, len: nat)

  class BruteForceDetector {
    const cfg: Config
    var failures: map<string, Header>
    var alerted: set<string>

    /** No two clients share a backing array. */
    ghost predicate Valid()
      reads this`failures
    {
      && cfg.Valid()
      && (forall c :: c in failures ==> failures[c].len <= failures[c].data.Length)
      && (forall c, d :: c in failures && d in failures && c != d ==> failures[c].data != failures[d].data)
    }

    ghost function Arrays(): set<object>
      reads this`failures
    {
      set c | c in failures :: failures[c].data
    }

    /** The timestamps that each client's slice holds. */
    ghost function Lists(): map<string, seq<int>>
      reads this`failures, Arrays()
      requires Valid()
    {
      map c | c in failures :: failures[c].data[..failures[c].len]
    }

    ghost function Value(): State
      reads this, Arrays()
      requires Valid()
    {
      State(Lists(), alerted)
    }

    /** Environment settings that are absent or not positive fall back to 10 failures in 60 seconds. */
    constructor (threshold: Option<int>, windowSec: Option<int>)
      requires windowSec.Some? ==> Fits64(windowSec.value)
      ensures Valid() && Value() == State(map[], {})
      ensures cfg == Config(if threshold.Some? && threshold.value > 0 then threshold.value else 10,
                            if windowSec.Some? && windowSec.value > 0 then windowSec.value else 60)
    {
      cfg := Config(if threshold.Some? && threshold.value > 0 then threshold.value else 10,
                    if windowSec.Some? && windowSec.value > 0 then windowSec.value else 60);
      failures, alerted := map[], {};
    }

    /** Moves the surviving timestamps to the front of the very slice that is being read. */
    static method Compact(a: array<int>, n: nat, cutoff: int) returns (m: nat)
      requires n <= a.Length
      modifies a
      ensures m <= n && a[..m] == Prune(old(a[..n]), cutoff)
    {
      m := 0;
      for i := 0 to n
        invariant m <= i
        invariant a[..m] == Prune(old(a[..i]), cutoff)
        invariant forall k :: i <= k < n ==> a[k] == old(a[k])
      {
        ghost var was := old(a[..i + 1]);
        assert was[..|was| - 1] == old(a[..i]);
        var t := a[i];
        if !(t < cutoff) {
          a[m] := t;
          m := m + 1;
          assert a[..m] == a[..m - 1] + [t];
        }
      }
    }

    /** Appends in place while there is room, and otherwise moves to a larger array of any size. */
    static method Push(a: array<int>, n: nat, t: int) returns (h: Header)
      requires n <= a.Length
      modifies a
      ensures h.data == a || fresh(h.data)
      ensures h.len == n + 1 <= h.data.Length && h.data[..n + 1] == old(a[..n]) + [t]
    {
      if n < a.Length {
        a[n] := t;
        return Header(a, n + 1);
      }
      var capacity: nat :| capacity > n;
      var b := new int[capacity](i reads a => if 0 <= i < n <= a.Length then a[i] else t);
      return Header(b, n + 1);
    }

    /** The client's slice after this failure, in the old array or a new one. */
    method Slide(client: string, at: int, cutoff: int) returns (h: Header)
      requires Valid()
      modifies if client in failures then {failures[client].data} else {}
      ensures fresh(h.data) || (client in failures && h.data == failures[client].data)
      ensures h.len <= h.data.Length && h.data[..h.len] == Prune(old(Value()).Times(client), cutoff) + [at]
      ensures forall c :: c in failures && c != client ==>
                failures[c].data != h.data && failures[c].data[..failures[c].len] == old(Lists())[c]
    {
      if client in failures {
        var a, n := failures[client].data, failures[client].len;
        assert a[..n] == Value().Times(client);
        var m := Compact(a, n, cutoff);
        h := Push(a, m, at);
      } else {
        var a := new int[0];
        assert a[..0] == Prune(Value().Times(client), cutoff);
        h := Push(a, 0, at);
      }
    }

    /** Updates the client's entry; every other client keeps its timestamps. */
    method Keep(client: string, at: int, cutoff: int) returns (h: Header)
      requires Valid()
      modifies this`failures, if client in failures then {failures[client].data} else {}
      ensures Valid() && client in failures && h == failures[client]
      ensures h.len <= h.data.Length && h.data[..h.len] == Prune(old(Value()).Times(client), cutoff) + [at]
      ensures Lists() == old(Lists())[client := h.data[..h.len]]
    {
      ghost var before := Lists();
      h := Slide(client, at, cutoff);
      failures := failures[client := h];
      assert Valid();
      SameTimes(Lists(), before[client := h.data[..h.len]]);
    }

    /** Raises the alert unless there are too few failures or the pair was alerted before. */
    method Announce(rule: Rule, client: string, first: int, count: nat, at: int) returns (alert: Option<Alert>)
      requires Valid()
      modifies this`alerted
      ensures Valid() && Lists() == old(Lists())
      ensures var bucket := rule.bucket(first);
              var raised := count >= rule.threshold && AlertKey(client, bucket) !in old(alerted);
              && alert == (if raised then Some(Alert(client, bucket, count, first, at)) else None)
              && alerted == if raised then old(alerted) + {AlertKey(client, bucket)} else old(alerted)
    {
      if count < rule.threshold {
        return None;
      }
      var key := AlertKey(client, rule.bucket(first));
      if key in alerted {
        return None;
      }
      alerted := alerted + {key};
      return Some(Alert(client, rule.bucket(first), count, first, at));
    }

    /** One failure under a rule. */
    method Observe(rule: Rule, client: string, at: int) returns (alert: Option<Alert>)
      requires Valid()
      modifies this, if client in failures then {failures[client].data} else {}
      ensures Valid()
      ensures Value() == Record(rule, old(Value()), client, at)
      ensures alert == Raises(rule, old(Value()), client, at)
    {
      ghost var s := Value();
      var h := Keep(client, at, at - rule.window);
      ghost var times := h.data[..h.len];
      assert times[0] == h.data[0] && |times| == h.len;
      alert := Announce(rule, client, h.data[0], h.len, at);
      Recorded(rule, s, client, at, times, rule.bucket(times[0]), Value(), alert);
    }

    /** One failure under the detector's settings; an alert counts windows in seconds from the epoch outward. */
    method RecordFailure(client: string, at: int) returns (alert: Option<Alert>)
      requires Valid()
      modifies this, if client in failures then {failures[client].data} else {}
      ensures Valid()
      ensures Value() == Record(cfg.ToRule(), old(Value()), client, at)
      ensures alert == Raises(cfg.ToRule(), old(Value()), client, at)
      ensures alert.Some? ==>
                var a, times := alert.value, Value().Times(client);
                && a.client == client && a.last == at && times != []
                && a.first == times[0] && a.attempts == |times| >= cfg.threshold
                && if a.first >= 0 then a.bucket * cfg.windowSec <= Unix(a.first) < (a.bucket + 1) * cfg.windowSec
                   else (a.bucket - 1) * cfg.windowSec < Unix(a.first) <= a.bucket * cfg.windowSec
    {
      alert := Observe(cfg.ToRule(), client, at);
      if alert.Some? {
        UnixMeaning(alert.value.first);
        TruncDivMeaning(Unix(alert.value.first), cfg.windowSec);
      }
    }
  }
}
