/**
 Exchanging an identity provider's token for a capability: the policy index, the
 scope check, the time to live and the decision. The verification of the
 provider's JWT is a parameter: the subject it proves, or None.
 */
module Oidc {
  import opened Protocol
  import opened Text
  import opened GoInt
  import opened Store
  import opened Broker

  const MAX_TTL := 300 * SECOND
  const DEFAULT_TTL := 30 * SECOND

  // ----- Policy -----

  datatype Row = Row(issuer: string, sub: string, mappedSigil: string, allowedScopes: seq<string>,
                     maxTtlSec: int, enabled: bool)

  function PolicyKey(issuer: string, sub: string): string {
    issuer + "|" + sub
  }

  /** The last of the first n rows with this key. */
  function LastWithKey(rows: seq<Row>, n: nat, key: string): Option<Row>
    requires n <= |rows|
  {
    if n == 0 then None
    else if PolicyKey(rows[n - 1].issuer, rows[n - 1].sub) == key then Some(rows[n - 1])
    else LastWithKey(rows, n - 1, key)
  }

  /** The last of the first n rows for this issuer and subject. */
  function LastFor(rows: seq<Row>, n: nat, issuer: string, sub: string): Option<Row>
    requires n <= |rows|
  {
    if n == 0 then None
    else if rows[n - 1].issuer == issuer && rows[n - 1].sub == sub then Some(rows[n - 1])
    else LastFor(rows, n - 1, issuer, sub)
  }

  method LoadPolicy(rows: seq<Row>) returns (idx: map<string, Row>)
    ensures forall key :: (if key in idx then Some(idx[key]) else None) == LastWithKey(rows, |rows|, key)
  {
    idx := map[];
    for i := 0 to |rows|
      invariant forall key :: (if key in idx then Some(idx[key]) else None) == LastWithKey(rows, i, key)
    {
      idx := idx[PolicyKey(rows[i].issuer, rows[i].sub) := rows[i]];
    }
  }

  function PolicyLookup(rows: seq<Row>, issuer: string, sub: string): Option<Row> {
    LastWithKey(rows, |rows|, PolicyKey(issuer, sub))
  }

  /** Row i is for another identity whose joined key is the same. */
  predicate Collides(rows: seq<Row>, i: nat, issuer: string, sub: string)
    requires i < |rows|
  {
    PolicyKey(rows[i].issuer, rows[i].sub) == PolicyKey(issuer, sub) && (rows[i].issuer != issuer || rows[i].sub != sub)
  }

  predicate IsFor(rows: seq<Row>, i: nat, issuer: string, sub: string)
    requires i < |rows|
  {
    rows[i].issuer == issuer && rows[i].sub == sub
  }

  lemma {:induction false} LookupStep(rows: seq<Row>, n: nat, issuer: string, sub: string)
    requires n <= |rows|
    ensures LastWithKey(rows, n, PolicyKey(issuer, sub)) == LastFor(rows, n, issuer, sub) <==>
            forall i :: 0 <= i < n && Collides(rows, i, issuer, sub) ==> exists j :: i < j < n && IsFor(rows, j, issuer, sub)
    ensures LastWithKey(rows, n, PolicyKey(issuer, sub)) == LastFor(rows, n, issuer, sub) ||
            (LastWithKey(rows, n, PolicyKey(issuer, sub)).Some? &&
             (LastWithKey(rows, n, PolicyKey(issuer, sub)).value.issuer != issuer ||
              LastWithKey(rows, n, PolicyKey(issuer, sub)).value.sub != sub))
    ensures LastFor(rows, n, issuer, sub).Some? ==>
              LastFor(rows, n, issuer, sub).value.issuer == issuer && LastFor(rows, n, issuer, sub).value.sub == sub
  {
    if n > 0 {
      LookupStep(rows, n - 1, issuer, sub);
      var good := forall i :: 0 <= i < n && Collides(rows, i, issuer, sub) ==>
                                exists j :: i < j < n && IsFor(rows, j, issuer, sub);
      if IsFor(rows, n - 1, issuer, sub) {
        assert good by {
          forall i | 0 <= i < n && Collides(rows, i, issuer, sub)
            ensures exists j :: i < j < n && IsFor(rows, j, issuer, sub)
          {
            assert IsFor(rows, n - 1, issuer, sub);
          }
        }
      } else if Collides(rows, n - 1, issuer, sub) {
        assert !good;
      } else {
        var was := forall i :: 0 <= i < n - 1 && Collides(rows, i, issuer, sub) ==>
                     exists j :: i < j < n - 1 && IsFor(rows, j, issuer, sub);
        assert good <==> was;
      }
    }
  }

  /** Every row of another identity with the same joined key is followed by one for this identity. */
  ghost predicate Unshadowed(rows: seq<Row>, issuer: string, sub: string) {
    forall i :: 0 <= i < |rows| && Collides(rows, i, issuer, sub) ==>
      exists j :: i < j < |rows| && IsFor(rows, j, issuer, sub)
  }

  /** Lookup returns the last row for exactly this issuer and subject, or none, if and only if nothing shadows it. */
  lemma LookupExactness(rows: seq<Row>, issuer: string, sub: string)
    ensures PolicyLookup(rows, issuer, sub) == LastFor(rows, |rows|, issuer, sub) <==> Unshadowed(rows, issuer, sub)
  {
    LookupStep(rows, |rows|, issuer, sub);
  }

  /** That is always so when no issuer contains the separator. */
  lemma PlainIssuersAreUnshadowed(rows: seq<Row>, issuer: string, sub: string)
    requires '|' !in issuer && forall i :: 0 <= i < |rows| ==> '|' !in rows[i].issuer
    ensures Unshadowed(rows, issuer, sub)
  {
    forall i | 0 <= i < |rows| ensures !Collides(rows, i, issuer, sub) {
      if Collides(rows, i, issuer, sub) {
        FirstSeparator(rows[i].issuer, rows[i].sub, issuer, sub, '|');
      }
    }
  }

  lemma LookupExactForPlainIssuers(rows: seq<Row>, issuer: string, sub: string)
    requires '|' !in issuer && forall i :: 0 <= i < |rows| ==> '|' !in rows[i].issuer
    ensures PolicyLookup(rows, issuer, sub) == LastFor(rows, |rows|, issuer, sub)
  {
    PlainIssuersAreUnshadowed(rows, issuer, sub);
    LookupExactness(rows, issuer, sub);
  }

  /** With it, one identity is answered with the row of another. */
  lemma SeparatorConfusesIdentities(a: string, b: string, c: string, row: Row)
    requires row.issuer == a + "|" + b && row.sub == c
    ensures PolicyLookup([row], a, b + "|" + c) == Some(row) && LastFor([row], 1, a, b + "|" + c) == None
  {
    assert a + "|" + b + "|" + c == a + "|" + (b + "|" + c);
    assert |row.issuer| > |a|;
    assert LastWithKey([row], 1, PolicyKey(a, b + "|" + c)) == Some(row);
    assert LastFor([row], 0, a, b + "|" + c) == None;
  }

  // ----- Scopes -----

  method ScopesSubset(requested: seq<string>, allowed: seq<string>) returns (r: bool)
    ensures r <==> forall s :: s in requested ==> s in allowed
  {
    var allow: set<string> := {};
    for i := 0 to |allowed|
      invariant allow == set s | s in allowed[..i]
    {
      allow := allow + {allowed[i]};
    }
    assert allowed[..|allowed|] == allowed;
    for i := 0 to |requested|
      invariant forall s :: s in requested[..i] ==> s in allowed
    {
      if requested[i] !in allow {
        return false;
      }
    }
    assert requested[..|requested|] == requested;
    return true;
  }

  // ----- Time to live -----

  /** In the 64-bit arithmetic of time.Duration. */
  function Ttl(maxTtlSec: int, requested: int): int {
    var policy := if maxTtlSec > 0 then Wrap64(maxTtlSec * SECOND) else DEFAULT_TTL;
    var asked := Wrap64(requested * SECOND);
    var ttl := if requested > 0 && asked < policy then asked else policy;
    if ttl > MAX_TTL then MAX_TTL else ttl
  }

  method ComputeTtl(maxTtlSec: int, requested: int) returns (ttl: int)
    ensures ttl == Ttl(maxTtlSec, requested)
  {
    ttl := DEFAULT_TTL;
    if maxTtlSec > 0 {
      ttl := Wrap64(maxTtlSec * SECOND);
    }
    if requested > 0 {
      var asked := Wrap64(requested * SECOND);
      if asked < ttl {
        ttl := asked;
      }
    }
    if ttl > MAX_TTL {
      ttl := MAX_TTL;
    }
  }

  function Min(a: int, b: int): (m: int)
    ensures m <= a && m <= b && (m == a || m == b)
  {
    if a < b then a else b
  }

  /** Never more than five minutes, whatever wraps; positive exactly if no product wraps to zero or below. */
  lemma TtlBounds(maxTtlSec: int, requested: int)
    ensures Ttl(maxTtlSec, requested) <= MAX_TTL
    ensures Ttl(maxTtlSec, requested) > 0 <==>
            (maxTtlSec > 0 ==> Wrap64(maxTtlSec * SECOND) > 0) && (requested > 0 ==> Wrap64(requested * SECOND) > 0)
  {
  }

  /** What the time to live is meant to be: the smallest of the ceiling, the policy and a positive request. */
  function IntendedTtl(maxTtlSec: int, requested: int): int {
    var policy := if maxTtlSec > 0 then maxTtlSec * SECOND else DEFAULT_TTL;
    Min(MAX_TTL, if requested > 0 then Min(policy, requested * SECOND) else policy)
  }

  /** It is that exactly if neither product wraps to something smaller. */
  lemma TtlExactness(maxTtlSec: int, requested: int)
    ensures var want := IntendedTtl(maxTtlSec, requested);
            Ttl(maxTtlSec, requested) == want <==>
            (maxTtlSec > 0 ==> Wrap64(maxTtlSec * SECOND) >= want) && (requested > 0 ==> Wrap64(requested * SECOND) >= want)
  {
  }

  /** Which holds, with a positive result, for all seconds that fit a time.Duration. */
  lemma TtlIsMinimum(maxTtlSec: int, requested: int)
    requires maxTtlSec <= 9223372036 && requested <= 9223372036
    ensures Ttl(maxTtlSec, requested) == IntendedTtl(maxTtlSec, requested) > 0
  {
  }

  /** One second more and a policy mints caps that have already expired. */
  lemma TtlWraps()
    ensures Ttl(9223372037, 0) < 0
  {
  }

  /** The claims of the JWT: expiry set from one clock reading, issue time from a later one, both cut to seconds. */
  lemma JwtLifetimeBounded(maxTtlSec: int, requested: int, minted: int, signed: int)
    requires minted <= signed
    ensures Unix(minted + Ttl(maxTtlSec, requested)) - Unix(signed) <= 300
  {
    TtlBounds(maxTtlSec, requested);
    FloorMonotone(minted + Ttl(maxTtlSec, requested), minted + 300 * SECOND);
    FloorMonotone(minted, signed);
    assert Unix(minted + 300 * SECOND) == Unix(minted) + 300;
  }

  lemma FloorMonotone(s: int, t: int)
    requires s <= t
    ensures Unix(s) <= Unix(t)
  {
  }

  // ----- The decision -----

  datatype BootstrapRequest = BootstrapRequest(token: string, issuer: string, audience: string, scope: string,
                                               scopes: seq<string>, ttlSec: int)

  datatype Refusal =
    | MissingFields
    | AudienceMismatch
    | NoScopes
    | UnknownIssuer
    | InvalidToken
    | NoPolicy
    | PolicyDenied
    | MintFailed

  datatype Decision = Refuse(why: Refusal) | Grant(sigil: string, scope: string, ttl: int)

  function RequestedScopes(req: BootstrapRequest): seq<string> {
    if req.scope == "" then req.scopes else req.scopes + [req.scope]
  }

  /** What is decided under the policy row that was found, if any. */
  function DecideBy(row: Option<Row>, scopes: seq<string>, ttlSec: int): Decision {
    match row
    case None => Refuse(NoPolicy)
    case Some(r) =>
      if !r.enabled then Refuse(NoPolicy)
      else if exists s :: s in scopes && s !in r.allowedScopes then Refuse(PolicyDenied)
      else Grant(r.mappedSigil, Join(scopes, ' '), Ttl(r.maxTtlSec, ttlSec))
  }

  /** What is decided before a cap is minted; `sub` is the verified subject of the token. */
  function Decide(rows: seq<Row>, audience: string, issuers: set<string>, req: BootstrapRequest, sub: Option<string>)
    : Decision
  {
    if req.token == "" || req.issuer == "" || req.audience == "" then Refuse(MissingFields)
    else if req.audience != audience then Refuse(AudienceMismatch)
    else if RequestedScopes(req) == [] then Refuse(NoScopes)
    else if req.issuer !in issuers then Refuse(UnknownIssuer)
    else if sub.None? then Refuse(InvalidToken)
    else DecideBy(PolicyLookup(rows, req.issuer, sub.value), RequestedScopes(req), req.ttlSec)
  }

  ghost predicate Allows(row: Option<Row>, scopes: seq<string>) {
    row.Some? && row.value.enabled && forall s :: s in scopes ==> s in row.value.allowedScopes
  }

  /**
   A grant of ttl nanoseconds under a row, when so many seconds were asked for:
   the smallest of five minutes, the row's maximum or else 30 seconds, and a
   positive request. It is that exactly if no product wraps below it, which no
   number of seconds up to 9223372036 does, and it never exceeds five minutes or
   a positive request.
   */
  ghost predicate LastsRightly(row: Row, asked: int, ttl: int) {
    var policy := if row.maxTtlSec > 0 then row.maxTtlSec * 1_000_000_000 else 30_000_000_000;
    var want := Min(300_000_000_000, if asked > 0 then Min(policy, asked * 1_000_000_000) else policy);
    && (ttl == want <==>
          && (row.maxTtlSec > 0 ==> Wrap64(row.maxTtlSec * 1_000_000_000) >= want)
          && (asked > 0 ==> Wrap64(asked * 1_000_000_000) >= want))
    && (row.maxTtlSec <= 9223372036 && asked <= 9223372036 ==> ttl == want > 0)
    && ttl <= 300_000_000_000 && (asked > 0 ==> ttl <= asked * 1_000_000_000)
  }

  lemma WrapOnlyLowers(n: int)
    requires n >= 0
    ensures Wrap64(n) <= n
  {
  }

  lemma TtlLastsRightly(row: Row, asked: int)
    ensures LastsRightly(row, asked, Ttl(row.maxTtlSec, asked))
  {
    TtlExactness(row.maxTtlSec, asked);
    if row.maxTtlSec <= 9223372036 && asked <= 9223372036 {
      TtlIsMinimum(row.maxTtlSec, asked);
    }
    if asked > 0 {
      WrapOnlyLowers(asked * 1_000_000_000);
    }
  }

  lemma DecideByMeaning(row: Option<Row>, scopes: seq<string>, ttlSec: int)
    requires scopes != []
    ensures var d := DecideBy(row, scopes, ttlSec);
            && (d.Grant? <==> Allows(row, scopes))
            && (d.Grant? ==>
                  && d.sigil == row.value.mappedSigil && LastsRightly(row.value, ttlSec, d.ttl)
                  && (Split(d.scope, ' ') == scopes <==> forall i :: 0 <= i < |scopes| ==> ' ' !in scopes[i]))
            && (d == Refuse(NoPolicy) <==> row.None? || !row.value.enabled)
            && (d == Refuse(PolicyDenied) <==> row.Some? && row.value.enabled && !Allows(row, scopes))
  {
    SplitJoin(scopes, ' ');
    if row.Some? {
      TtlLastsRightly(row.value, ttlSec);
    }
  }

  /**
   A request is granted exactly if it is well formed and the last row of the file
   for the verified identity is enabled and allows every requested scope. The
   grant is for that row's sigil and lasts as long as row and request say, and the
   granted string can be read back into the requested scopes exactly if none of
   them contains a space. A refusal gives the first reason there is.
   */
  ghost predicate DecidesRightly(rows: seq<Row>, audience: string, issuers: set<string>, req: BootstrapRequest,
                                 sub: Option<string>, d: Decision)
  {
    var row := if sub.Some? then LastFor(rows, |rows|, req.issuer, sub.value) else None;
    var scopes := req.scopes + (if req.scope == "" then [] else [req.scope]);
    var complete := req.token != "" && req.issuer != "" && req.audience != "";
    var asked := complete && req.audience == audience && scopes != [];
    var known := asked && req.issuer in issuers && sub.Some?;
    && (d.Grant? <==> known && Allows(row, scopes))
    && (d.Grant? ==>
          && d.sigil == row.value.mappedSigil && LastsRightly(row.value, req.ttlSec, d.ttl)
          && (Split(d.scope, ' ') == scopes <==> forall i :: 0 <= i < |scopes| ==> ' ' !in scopes[i]))
    && (d == Refuse(MissingFields) <==> !complete)
    && (d == Refuse(AudienceMismatch) <==> complete && req.audience != audience)
    && (d == Refuse(NoScopes) <==> complete && req.audience == audience && scopes == [])
    && (d == Refuse(UnknownIssuer) <==> asked && req.issuer !in issuers)
    && (d == Refuse(InvalidToken) <==> asked && req.issuer in issuers && sub.None?)
    && (d == Refuse(NoPolicy) <==> known && (row.None? || !row.value.enabled))
    && (d == Refuse(PolicyDenied) <==> known && row.Some? && row.value.enabled && !Allows(row, scopes))
    && d != Refuse(MintFailed)
  }

  lemma ScopesAsked(req: BootstrapRequest)
    ensures RequestedScopes(req) == req.scopes + (if req.scope == "" then [] else [req.scope])
  {
  }

  /** So it is whenever no row shadows the identity. */
  lemma GrantMeaning(rows: seq<Row>, audience: string, issuers: set<string>, req: BootstrapRequest, sub: Option<string>)
    requires sub.Some? ==> Unshadowed(rows, req.issuer, sub.value)
    ensures DecidesRightly(rows, audience, issuers, req, sub, Decide(rows, audience, issuers, req, sub))
  {
    ScopesAsked(req);
    if sub.Some? && RequestedScopes(req) != [] {
      var row := LastFor(rows, |rows|, req.issuer, sub.value);
      LookupExactness(rows, req.issuer, sub.value);
      DecideByMeaning(row, RequestedScopes(req), req.ttlSec);
    }
  }

  /** In particular when no issuer contains the separator. */
  lemma GrantForPlainIssuers(rows: seq<Row>, audience: string, issuers: set<string>, req: BootstrapRequest,
                             sub: Option<string>)
    requires '|' !in req.issuer && forall i :: 0 <= i < |rows| ==> '|' !in rows[i].issuer
    ensures DecidesRightly(rows, audience, issuers, req, sub, Decide(rows, audience, issuers, req, sub))
  {
    if sub.Some? {
      PlainIssuersAreUnshadowed(rows, req.issuer, sub.value);
    }
    GrantMeaning(rows, audience, issuers, req, sub);
  }

  class OidcBootstrap {
    const broker: HankoBroker
    const policy: map<string, Row>
    const audience: string
    const issuers: set<string>

    constructor (broker: HankoBroker, policy: map<string, Row>, audience: string, issuers: set<string>)
      ensures this.broker == broker && this.policy == policy && this.audience == audience && this.issuers == issuers
    {
      this.broker, this.policy, this.audience, this.issuers := broker, policy, audience, issuers;
    }

    /** The policy object holds these rows. */
    ghost predicate Holds(rows: seq<Row>) {
      forall key :: (if key in policy then Some(policy[key]) else None) == LastWithKey(rows, |rows|, key)
    }

    /**
     A granted request mints exactly the decided cap, which outlives neither five
     minutes nor a positive request; anything else leaves the store alone.
     */
    method Handle(ghost rows: seq<Row>, req: BootstrapRequest, sub: Option<string>, capId: string, nonce: Bytes,
                  now: Timestamp, issuedAt: Timestamp)
      returns (d: Decision, cap: Option<CapabilityToken>)
      requires broker.Valid() && Holds(rows)
      modifies broker.store
      ensures broker.Valid()
      ensures var want := Decide(rows, audience, issuers, req, sub);
              d == if want.Grant? && want.sigil !in old(broker.store.sigils) then Refuse(MintFailed) else want
      ensures d.Refuse? ==> cap.None? && broker.store.Value() == old(broker.store.Value())
      ensures d.Grant? ==>
                && cap == Some(CapabilityToken(capId, d.sigil, d.scope, issuedAt,
                                               Timestamp(now.nanos + d.ttl, now.zone), Of(nonce)))
                && broker.store.Value() == Apply(old(broker.store.Value()), SaveCap(cap.value))
      ensures cap.Some? ==>
                && cap.value.expiresAt.nanos <= now.nanos + 300_000_000_000
                && (req.ttlSec > 0 ==> cap.value.expiresAt.nanos <= now.nanos + req.ttlSec * 1_000_000_000)
      ensures d.Grant? && Unshadowed(rows, req.issuer, sub.value) ==>
                DecidesRightly(rows, audience, issuers, req, sub, d)
    {
      cap := None;
      if req.token == "" || req.issuer == "" || req.audience == "" {
        return Refuse(MissingFields), None;
      }
      if req.audience != audience {
        return Refuse(AudienceMismatch), None;
      }
      var scopes := RequestedScopes(req);
      if |scopes| == 0 {
        return Refuse(NoScopes), None;
      }
      if req.issuer !in issuers {
        return Refuse(UnknownIssuer), None;
      }
      if sub.None? {
        return Refuse(InvalidToken), None;
      }
      var key := PolicyKey(req.issuer, sub.value);
      assert (if key in policy then Some(policy[key]) else None) == PolicyLookup(rows, req.issuer, sub.value);
      if key !in policy || !policy[key].enabled {
        return Refuse(NoPolicy), None;
      }
      var row := policy[key];
      var ok := ScopesSubset(scopes, row.allowedScopes);
      if !ok {
        return Refuse(PolicyDenied), None;
      }
      var ttl := ComputeTtl(row.maxTtlSec, req.ttlSec);
      TtlLastsRightly(row, req.ttlSec);
      var scope := Join(scopes, ' ');
      cap := broker.IssueCap(capId, nonce, row.mappedSigil, scope, issuedAt, Timestamp(now.nanos + ttl, now.zone));
      if cap.None? {
        return Refuse(MintFailed), None;
      }
      if Unshadowed(rows, req.issuer, sub.value) {
        GrantMeaning(rows, audience, issuers, req, sub);
      }
      return Grant(row.mappedSigil, scope, ttl), cap;
    }
  }
}
