/** The cache of identity-provider key sets: refreshed when old, kept when the provider is down. */
module Jwks {
  import opened Protocol
  import opened GoInt

  datatype Jwk = Jwk(kty: string, kid: string, n: string, e: string)

  type Doc = seq<Jwk>

  datatype Entry = Entry(doc: Doc, fetched: int)

  /** A lookup at some time; `fetch` is what the provider answers if it is asked, None for an error. */
  datatype Request = Request(url: string, kid: string, now: int, fetch: Option<Doc>)

  datatype KeyResult = Key(material: Bytes) | BadMaterial | UnsupportedKty | NoSuchKid | FetchFailed

  /** time.Time.Sub, which saturates. */
  function Sub(a: int, b: int): int {
    if a - b > MAX64 then MAX64 else if a - b < MIN64 then MIN64 else a - b
  }

  predicate Stale(entry: Option<Entry>, now: int, ttl: int) {
    entry.None? || Sub(now, entry.value.fetched) > ttl
  }

  /** Position of the first key with this kid, |doc| if there is none. */
  function FirstKid(doc: Doc, kid: string): (i: nat)
    ensures i <= |doc| && (i < |doc| ==> doc[i].kid == kid)
    ensures forall j :: 0 <= j < i ==> doc[j].kid != kid
  {
    if doc == [] || doc[0].kid == kid then 0 else 1 + FirstKid(doc[1..], kid)
  }

  function KeyOf(parse: Jwk -> Option<Bytes>, k: Jwk): KeyResult {
    if k.kty != "RSA" then UnsupportedKty
    else match parse(k)
      case None => BadMaterial
      case Some(b) => Key(b)
  }

  /** A key is usable exactly if it is an RSA key whose material can be read, and then it is that material. */
  lemma KeyMeaning(parse: Jwk -> Option<Bytes>, k: Jwk)
    ensures forall b :: KeyOf(parse, k) == Key(b) <==> k.kty == "RSA" && parse(k) == Some(b)
    ensures KeyOf(parse, k) == UnsupportedKty <==> k.kty != "RSA"
    ensures KeyOf(parse, k) == BadMaterial <==> k.kty == "RSA" && parse(k).None?
  {
  }

  /** A lookup in a document is answered by the first key with the kid, whatever later ones say. */
  lemma LookupMeaning(parse: Jwk -> Option<Bytes>, doc: Doc, kid: string)
    ensures Lookup(parse, doc, kid) == NoSuchKid <==> forall i :: 0 <= i < |doc| ==> doc[i].kid != kid
    ensures forall b :: Lookup(parse, doc, kid) == Key(b) <==>
              exists i :: 0 <= i < |doc| && doc[i].kid == kid && (forall j :: 0 <= j < i ==> doc[j].kid != kid) &&
                          doc[i].kty == "RSA" && parse(doc[i]) == Some(b)
  {
    var i := FirstKid(doc, kid);
    if i < |doc| {
      KeyMeaning(parse, doc[i]);
      assert doc[i].kid == kid;
    }
  }

  function Lookup(parse: Jwk -> Option<Bytes>, doc: Doc, kid: string): KeyResult {
    var i := FirstKid(doc, kid);
    if i == |doc| then NoSuchKid else KeyOf(parse, doc[i])
  }

  class IdpJwksCache {
    const ttl: int
    const parse: Jwk -> Option<Bytes>
    var cached: map<string, Entry>

    constructor (ttl: int, parse: Jwk -> Option<Bytes>)
      ensures this.ttl == ttl && this.parse == parse && cached == map[]
    {
      this.ttl, this.parse := ttl, parse;
      cached := map[];
    }

    function EntryFor(url: string): Option<Entry>
      reads this
    {
      if url in cached then Some(cached[url]) else None
    }

    method FindKey(doc: Doc, kid: string) returns (r: KeyResult)
      ensures r == Lookup(parse, doc, kid)
    {
      for i := 0 to |doc|
        invariant forall j :: 0 <= j < i ==> doc[j].kid != kid
      {
        if doc[i].kid == kid {
          return KeyOf(parse, doc[i]);
        }
      }
      return NoSuchKid;
    }

    method KeyByKid(req: Request) returns (r: KeyResult)
      modifies this
      ensures var entry := old(EntryFor(req.url));
              var asked := Stale(entry, req.now, ttl);
              && cached == (if asked && req.fetch.Some? then old(cached)[req.url := Entry(req.fetch.value, req.now)]
                            else old(cached))
              && r == if asked && req.fetch.None? && entry.None? then FetchFailed
                      else Lookup(parse, if asked && req.fetch.Some? then req.fetch.value else entry.value.doc, req.kid)
    {
      var e := EntryFor(req.url);
      if e.None? || Sub(req.now, e.value.fetched) > ttl {
        if req.fetch.None? {
          if e.None? {
            return FetchFailed;
          }
        } else {
          cached := cached[req.url := Entry(req.fetch.value, req.now)];
          e := Some(cached[req.url]);
        }
      }
      r := FindKey(e.value.doc, req.kid);
    }
  }

  // ----- Over a run of lookups -----

  /** The lookup that last brought a document for this URL, among the first n; -1 if none did. */
  function Source(ttl: int, reqs: seq<Request>, n: nat, url: string): (i: int)
    requires n <= |reqs|
    ensures -1 <= i < n && (i >= 0 ==> reqs[i].url == url && reqs[i].fetch.Some?)
  {
    if n == 0 then -1
    else
      var i := Source(ttl, reqs, n - 1, url);
      if reqs[n - 1].url == url && reqs[n - 1].fetch.Some? && Stale(Brought(reqs, i), reqs[n - 1].now, ttl) then n - 1 else i
  }

  /** The document that lookup i brought, with its time. */
  function Brought(reqs: seq<Request>, i: int): Option<Entry>
    requires -1 <= i < |reqs| && (i >= 0 ==> reqs[i].fetch.Some?)
  {
    if i < 0 then None else Some(Entry(reqs[i].fetch.value, reqs[i].now))
  }

  /** What lookup n must answer. */
  function Answer(ttl: int, parse: Jwk -> Option<Bytes>, reqs: seq<Request>, n: nat): KeyResult
    requires n < |reqs|
  {
    var entry := Brought(reqs, Source(ttl, reqs, n + 1, reqs[n].url));
    if entry.None? then FetchFailed else Lookup(parse, entry.value.doc, reqs[n].kid)
  }

  /** A whole run: every answer is looked up in the last document that was brought for its URL. */
  method Serve(ttl: int, parse: Jwk -> Option<Bytes>, reqs: seq<Request>) returns (answers: seq<KeyResult>)
    ensures |answers| == |reqs|
    ensures forall n :: 0 <= n < |reqs| ==> answers[n] == Answer(ttl, parse, reqs, n)
  {
    var cache := new IdpJwksCache(ttl, parse);
    answers := [];
    for n := 0 to |reqs|
      invariant cache.ttl == ttl && cache.parse == parse
      invariant |answers| == n && forall i :: 0 <= i < n ==> answers[i] == Answer(ttl, parse, reqs, i)
      invariant forall url :: cache.EntryFor(url) == Brought(reqs, Source(ttl, reqs, n, url))
    {
      assert cache.EntryFor(reqs[n].url) == Brought(reqs, Source(ttl, reqs, n, reqs[n].url));
      var r := cache.KeyByKid(reqs[n]);
      answers := answers + [r];
    }
  }

  /** Sources only move forward: no lookup loses or replaces a document except by a newer one. */
  lemma {:induction false} SourceAdvances(ttl: int, reqs: seq<Request>, m: nat, n: nat, url: string)
    requires m <= n <= |reqs|
    ensures Source(ttl, reqs, m, url) <= Source(ttl, reqs, n, url)
    ensures Source(ttl, reqs, n, url) < m ==> Source(ttl, reqs, n, url) == Source(ttl, reqs, m, url)
    decreases n
  {
    if m < n {
      SourceAdvances(ttl, reqs, m, n - 1, url);
    }
  }

  /** A fetch error surfaces exactly if this fetch failed and no lookup for this URL was ever answered with a document. */
  lemma FetchFailedMeaning(ttl: int, parse: Jwk -> Option<Bytes>, reqs: seq<Request>, n: nat)
    requires n < |reqs|
    ensures Answer(ttl, parse, reqs, n) == FetchFailed <==>
            forall i :: 0 <= i <= n && reqs[i].url == reqs[n].url ==> reqs[i].fetch.None?
  {
    var url := reqs[n].url;
    if i :| 0 <= i <= n && reqs[i].url == url && reqs[i].fetch.Some? {
      SourceAdvances(ttl, reqs, i + 1, n + 1, url);
    }
  }

  /**
   A document older than the time to live is used only if this lookup asked for a
   new one and got none; the one it brings itself is that old only for a negative
   time to live.
   */
  lemma OldOnlyOnError(ttl: int, parse: Jwk -> Option<Bytes>, reqs: seq<Request>, n: nat)
    requires n < |reqs| && Source(ttl, reqs, n + 1, reqs[n].url) >= 0
    ensures var i := Source(ttl, reqs, n + 1, reqs[n].url);
            Sub(reqs[n].now, reqs[i].now) > ttl ==> if i < n then reqs[n].fetch.None? else ttl < 0
  {
  }

  /** The document is within the time to live; an age is cut to what a time.Duration holds. */
  predicate Within(age: int, ttl: int) {
    if age > 0x7FFF_FFFF_FFFF_FFFF then 0x7FFF_FFFF_FFFF_FFFF <= ttl
    else if age < -0x8000_0000_0000_0000 then -0x8000_0000_0000_0000 <= ttl
    else age <= ttl
  }

  /**
   A lookup is answered from the document that it finds while that is within its
   time to live, without asking, and also when the provider fails; otherwise from
   the one that the provider sends, which is then kept. No other URL is touched.
   */
  lemma YoungIsKept(ttl: int, parse: Jwk -> Option<Bytes>, reqs: seq<Request>, n: nat)
    requires n < |reqs|
    ensures var req := reqs[n];
            var i := Source(ttl, reqs, n, req.url);
            var used := if req.fetch.None? || (i >= 0 && Within(req.now - reqs[i].now, ttl)) then i else n;
            && Source(ttl, reqs, n + 1, req.url) == used
            && Answer(ttl, parse, reqs, n) ==
               if used < 0 then FetchFailed else Lookup(parse, reqs[used].fetch.value, req.kid)
    ensures forall url :: url != reqs[n].url ==> Source(ttl, reqs, n + 1, url) == Source(ttl, reqs, n, url)
  {
  }
}
