/**
 What a signature covers. An envelope is marshalled by Go's encoding/json, read
 back into a map, stripped of its signature and canonicalised; those bytes are
 signed. Ed25519 itself is a pair of functions: `sign` for the broker's private
 key and `verify` for its public key.
 */
module Attestation {
  import opened Protocol
  import opened Encoding
  import opened Rfc3339
  import opened Canonical
  import opened Documents

  const VERSION := "hanko/v0.1"
  const ISSUER := "hanko-broker@obyw.one"

  // ----- The document of an envelope -----

  /** How an instant is written, which may fail, and read. */
  datatype TimeFormat = TimeFormat(write: Timestamp -> Option<string>, read: string -> Option<Timestamp>)

  ghost predicate RoundTrips(times: TimeFormat) {
    forall t :: times.write(t).Some? ==> times.read(times.write(t).value) == Some(t)
  }

  function BlobText(b: Slice<Byte>): Option<string> {
    match b
    case NilSlice => None
    case Of(bytes) => Some(Base64(bytes))
  }

  function CapDocOf(times: TimeFormat, c: CapabilityToken): Option<CapDoc> {
    var issuedAt :- times.write(c.issuedAt);
    var expiresAt :- times.write(c.expiresAt);
    Some(CapDoc(c.id, c.sigilId, c.scope, issuedAt, expiresAt, BlobText(c.nonce)))
  }

  function CapDocs(times: TimeFormat, caps: seq<CapabilityToken>): Option<seq<CapDoc>> {
    if caps == [] then Some([])
    else
      var d :- CapDocOf(times, caps[0]);
      var rest :- CapDocs(times, caps[1..]);
      Some([d] + rest)
  }

  function SliceDoc(times: TimeFormat, caps: Slice<CapabilityToken>): Option<Slice<CapDoc>> {
    match caps
    case NilSlice => Some(NilSlice)
    case Of(items) =>
      var docs :- CapDocs(times, items);
      Some(Of(docs))
  }

  function DocOf(times: TimeFormat, e: Envelope): Option<EnvelopeDoc> {
    var caps :- SliceDoc(times, e.caps);
    var issuedAt :- times.write(e.issuedAt);
    var expiresAt :- times.write(e.expiresAt);
    Some(EnvelopeDoc(e.version, e.sigilId, caps, e.issuer, issuedAt, expiresAt, BlobText(e.signature)))
  }

  function Blob(text: Option<string>): Option<Slice<Byte>> {
    match text
    case None => Some(NilSlice)
    case Some(s) =>
      var b :- FromBase64(s);
      Some(Of(b))
  }

  function CapOf(times: TimeFormat, d: CapDoc): Option<CapabilityToken> {
    var issuedAt :- times.read(d.issuedAt);
    var expiresAt :- times.read(d.expiresAt);
    var nonce :- Blob(d.nonce);
    Some(CapabilityToken(d.id, d.sigilId, d.scope, issuedAt, expiresAt, nonce))
  }

  function CapsOf(times: TimeFormat, ds: seq<CapDoc>): Option<seq<CapabilityToken>> {
    if ds == [] then Some([])
    else
      var cap :- CapOf(times, ds[0]);
      var rest :- CapsOf(times, ds[1..]);
      Some([cap] + rest)
  }

  function SliceOf(times: TimeFormat, ds: Slice<CapDoc>): Option<Slice<CapabilityToken>> {
    match ds
    case NilSlice => Some(NilSlice)
    case Of(items) =>
      var caps :- CapsOf(times, items);
      Some(Of(caps))
  }

  function EnvelopeOf(times: TimeFormat, d: EnvelopeDoc): Option<Envelope> {
    var caps :- SliceOf(times, d.caps);
    var issuedAt :- times.read(d.issuedAt);
    var expiresAt :- times.read(d.expiresAt);
    var signature :- Blob(d.signature);
    Some(Envelope(d.version, d.sigilId, caps, d.issuer, issuedAt, expiresAt, signature))
  }

  // ----- Reading undoes writing -----

  lemma BlobReads(b: Slice<Byte>)
    ensures Blob(BlobText(b)) == Some(b)
  {
    if b.Of? {
      Base64RoundTrip(b.elements);
    }
  }

  lemma CapDocReads(times: TimeFormat, c: CapabilityToken)
    requires RoundTrips(times) && CapDocOf(times, c).Some?
    ensures CapOf(times, CapDocOf(times, c).value) == Some(c)
  {
    BlobReads(c.nonce);
  }

  lemma NextCapDoc(times: TimeFormat, d: CapDoc, ds: seq<CapDoc>, cap: CapabilityToken, caps: seq<CapabilityToken>)
    requires CapOf(times, d) == Some(cap) && CapsOf(times, ds) == Some(caps)
    ensures CapsOf(times, [d] + ds) == Some([cap] + caps)
  {
    assert ([d] + ds)[1..] == ds;
  }

  lemma {:induction false} CapDocsRead(times: TimeFormat, caps: seq<CapabilityToken>)
    requires RoundTrips(times) && CapDocs(times, caps).Some?
    ensures CapsOf(times, CapDocs(times, caps).value) == Some(caps)
  {
    if caps != [] {
      CapDocReads(times, caps[0]);
      CapDocsRead(times, caps[1..]);
      NextCapDoc(times, CapDocOf(times, caps[0]).value, CapDocs(times, caps[1..]).value, caps[0], caps[1..]);
      assert caps == [caps[0]] + caps[1..];
    }
  }

  lemma SliceReads(times: TimeFormat, caps: Slice<CapabilityToken>)
    requires RoundTrips(times) && SliceDoc(times, caps).Some?
    ensures SliceOf(times, SliceDoc(times, caps).value) == Some(caps)
  {
    if caps.Of? {
      CapDocsRead(times, caps.elements);
    }
  }

  lemma DocReads(times: TimeFormat, e: Envelope)
    requires RoundTrips(times) && DocOf(times, e).Some?
    ensures EnvelopeOf(times, DocOf(times, e).value) == Some(e)
  {
    SliceReads(times, e.caps);
    BlobReads(e.signature);
  }

  /** Every timestamp in the envelope satisfies p. */
  predicate AllTimes(p: Timestamp -> bool, e: Envelope) {
    && p(e.issuedAt) && p(e.expiresAt)
    && forall i :: 0 <= i < |e.caps.Items()| ==> p(e.caps.Items()[i].issuedAt) && p(e.caps.Items()[i].expiresAt)
  }

  lemma {:induction false} CapDocsExist(times: TimeFormat, caps: seq<CapabilityToken>)
    ensures CapDocs(times, caps).Some? <==> forall i :: 0 <= i < |caps| ==> CapDocOf(times, caps[i]).Some?
  {
    if caps != [] {
      CapDocsExist(times, caps[1..]);
      assert forall i :: 0 < i < |caps| ==> caps[i] == caps[1..][i - 1];
    }
  }

  lemma DocExists(times: TimeFormat, p: Timestamp -> bool, e: Envelope)
    requires forall t :: times.write(t).Some? <==> p(t)
    ensures DocOf(times, e).Some? <==> AllTimes(p, e)
  {
    CapDocsExist(times, e.caps.Items());
  }

  // ----- The wire form -----

  const RFC3339 := TimeFormat(WriteTime, ReadTime)

  lemma Rfc3339RoundTrips()
    ensures RoundTrips(RFC3339)
  {
    forall t | RFC3339.write(t).Some? ensures RFC3339.read(RFC3339.write(t).value) == Some(t) {
      TimeReads(t);
    }
  }

  /** json.Marshal on an envelope. */
  function EnvelopeJson(e: Envelope): Option<Bytes> {
    var d :- DocOf(RFC3339, e);
    Some(ToJson(d))
  }

  function ReadEnvelope(json: Bytes): Option<Envelope> {
    var d :- FromJson(json);
    EnvelopeOf(RFC3339, d)
  }

  /** Marshalling fails only on a timestamp that RFC 3339 cannot hold. */
  lemma EnvelopeJsonExists(e: Envelope)
    ensures EnvelopeJson(e).Some? <==> AllTimes(Encodable, e)
  {
    DocExists(RFC3339, Encodable, e);
  }

  /** An envelope survives its JSON form exactly, nil and empty slices and time zones included. */
  lemma EnvelopeRoundTrip(e: Envelope)
    ensures EnvelopeJson(e).Some? ==> ReadEnvelope(EnvelopeJson(e).value) == Some(e)
  {
    if EnvelopeJson(e).Some? {
      DocumentRoundTrip(DocOf(RFC3339, e).value);
      Rfc3339RoundTrips();
      DocReads(RFC3339, e);
    }
  }

  // ----- What the signed bytes say -----

  /** The envelope as a map without its signature. */
  function EnvelopeBody(e: Envelope): Option<Value> {
    var json :- EnvelopeJson(e);
    Body(json)
  }

  ghost function SignedBytes(e: Envelope): Option<Bytes> {
    var body :- EnvelopeBody(e);
    Some(CanonicalBytes(body))
  }

  /** Every envelope that marshals has signed bytes. */
  lemma SignedBytesExist(e: Envelope)
    ensures SignedBytes(e).Some? <==> EnvelopeJson(e).Some?
  {
    if EnvelopeJson(e).Some? {
      BodyOf(DocOf(RFC3339, e).value);
    }
  }

  lemma SameBody(e: Envelope, f: Envelope)
    requires SignedBytes(e).Some? && SignedBytes(e) == SignedBytes(f)
    ensures EnvelopeBody(e) == EnvelopeBody(f)
  {
    CanonicalInjective(EnvelopeBody(e).value, EnvelopeBody(f).value);
  }

  lemma SameDocument(times: TimeFormat, e: Envelope, f: Envelope)
    requires RoundTrips(times) && DocOf(times, e).Some? && DocOf(times, f).Some?
    requires DocOf(times, f).value == DocOf(times, e).value.(signature := DocOf(times, f).value.signature)
    ensures f == e.(signature := f.signature)
  {
    DocReads(times, e);
    DocReads(times, f);
  }

  /** Two envelopes with the same signed bytes agree on everything but the signature: caps, their order and all fields. */
  lemma SignedBytesBind(e: Envelope, f: Envelope)
    requires SignedBytes(e).Some? && SignedBytes(e) == SignedBytes(f)
    ensures f == e.(signature := f.signature)
  {
    SameBody(e, f);
    BodyBinds(DocOf(RFC3339, e).value, DocOf(RFC3339, f).value);
    Rfc3339RoundTrips();
    SameDocument(RFC3339, e, f);
  }

  lemma SameBytes(e: Envelope, f: Envelope)
    requires EnvelopeBody(e) == EnvelopeBody(f)
    ensures SignedBytes(e) == SignedBytes(f)
  {
  }

  lemma Resigned(times: TimeFormat, e: Envelope, signature: Slice<Byte>)
    ensures var f := e.(signature := signature);
            && (DocOf(times, e).Some? <==> DocOf(times, f).Some?)
            && (DocOf(times, e).Some? ==>
                  DocOf(times, f).value == DocOf(times, e).value.(signature := BlobText(signature)))
  {
  }

  /** The signature field itself is not covered. */
  lemma SignedBytesIgnoreSignature(e: Envelope, signature: Slice<Byte>)
    ensures SignedBytes(e.(signature := signature)) == SignedBytes(e)
  {
    Resigned(RFC3339, e, signature);
    if DocOf(RFC3339, e).Some? {
      BodyIgnoresSignature(DocOf(RFC3339, e).value, BlobText(signature));
    }
    SameBytes(e.(signature := signature), e);
  }

  // ----- Signing and checking -----

  /** The same for any way in which an envelope becomes a map. */
  ghost function SignedBy(body: Envelope -> Option<Value>, e: Envelope): Option<Bytes> {
    match body(e)
    case None => None
    case Some(v) => Some(CanonicalBytes(v))
  }

  ghost function IssueBy(body: Envelope -> Option<Value>, sign: Bytes -> Bytes, sigilId: string,
                         caps: Slice<CapabilityToken>, issuedAt: Timestamp, expiresAt: Timestamp): Option<Envelope> {
    var unsigned := Envelope(VERSION, sigilId, caps, ISSUER, issuedAt, expiresAt, NilSlice);
    var m :- SignedBy(body, unsigned);
    Some(unsigned.(signature := Of(sign(m))))
  }

  ghost function CheckBy(body: Envelope -> Option<Value>, verify: (Bytes, Bytes) -> bool): Envelope -> SignatureCheck {
    (env: Envelope) =>
      match SignedBy(body, env)
      case None => Unencodable
      case Some(m) => if verify(m, env.signature.Items()) then Good else Bad
  }

  /** IssueAttestation: None when the envelope cannot be marshalled. */
  ghost function Issue(sign: Bytes -> Bytes, sigilId: string, caps: Slice<CapabilityToken>,
                       issuedAt: Timestamp, expiresAt: Timestamp): Option<Envelope> {
    var unsigned := Envelope(VERSION, sigilId, caps, ISSUER, issuedAt, expiresAt, NilSlice);
    var m :- SignedBytes(unsigned);
    Some(unsigned.(signature := Of(sign(m))))
  }

  /** The signature stage of VerifyAttestation under a public key. */
  ghost function CheckWith(verify: (Bytes, Bytes) -> bool): Envelope -> SignatureCheck {
    (env: Envelope) =>
      match SignedBytes(env)
      case None => Unencodable
      case Some(m) => if verify(m, env.signature.Items()) then Good else Bad
  }

  lemma WithEnvelopeBody(sign: Bytes -> Bytes, verify: (Bytes, Bytes) -> bool, env: Envelope)
    ensures SignedBy(EnvelopeBody, env) == SignedBytes(env)
    ensures CheckBy(EnvelopeBody, verify)(env) == CheckWith(verify)(env)
    ensures IssueBy(EnvelopeBody, sign, env.sigilId, env.caps, env.issuedAt, env.expiresAt) ==
            Issue(sign, env.sigilId, env.caps, env.issuedAt, env.expiresAt)
  {
  }

  /** An issued envelope says what it was issued for, under the protocol's version and the broker's name. */
  lemma IssuedFields(sign: Bytes -> Bytes, sigilId: string, caps: Slice<CapabilityToken>,
                     issuedAt: Timestamp, expiresAt: Timestamp)
    requires Issue(sign, sigilId, caps, issuedAt, expiresAt).Some?
    ensures var env := Issue(sign, sigilId, caps, issuedAt, expiresAt).value;
            && env.version == "hanko/v0.1" && env.issuer == "hanko-broker@obyw.one"
            && env.sigilId == sigilId && env.caps == caps && env.issuedAt == issuedAt && env.expiresAt == expiresAt
            && env.signature.Of?
  {
  }

  /** Only a body that cannot be made is Unencodable; otherwise the signature over its bytes decides. */
  lemma CheckMeaning(body: Envelope -> Option<Value>, verify: (Bytes, Bytes) -> bool, env: Envelope)
    ensures CheckBy(body, verify)(env) == Unencodable <==> body(env).None?
    ensures CheckBy(body, verify)(env) == Good <==>
            body(env).Some? && verify(CanonicalBytes(body(env).value), env.signature.Items())
    ensures CheckBy(body, verify)(env) == Bad <==>
            body(env).Some? && !verify(CanonicalBytes(body(env).value), env.signature.Items())
  {
    match body(env)
    case None =>
      assert SignedBy(body, env) == None;
    case Some(v) =>
      assert SignedBy(body, env) == Some(CanonicalBytes(v));
  }

  /** The same for the body that Go makes, which fails only on a timestamp. */
  lemma CheckExactly(verify: (Bytes, Bytes) -> bool, env: Envelope)
    ensures CheckWith(verify)(env) == Unencodable <==> !AllTimes(Encodable, env)
    ensures CheckWith(verify)(env) == Good <==>
            SignedBytes(env).Some? && verify(SignedBytes(env).value, env.signature.Items())
    ensures CheckWith(verify)(env) == Bad <==>
            SignedBytes(env).Some? && !verify(SignedBytes(env).value, env.signature.Items())
  {
    SignedBytesExist(env);
    EnvelopeJsonExists(env);
  }

  /** The signature is not part of the map that is signed; EnvelopeBody is such. */
  ghost predicate IgnoresSignature(body: Envelope -> Option<Value>) {
    forall e: Envelope, signature: Slice<Byte> :: body(e.(signature := signature)) == body(e)
  }

  lemma EnvelopeBodyIgnoresSignature()
    ensures IgnoresSignature(EnvelopeBody)
  {
    forall e: Envelope, signature: Slice<Byte>
      ensures EnvelopeBody(e.(signature := signature)) == EnvelopeBody(e)
    {
      Resigned(RFC3339, e, signature);
      if DocOf(RFC3339, e).Some? {
        BodyIgnoresSignature(DocOf(RFC3339, e).value, BlobText(signature));
      }
    }
  }

  /** What is issued passes the check under the other half of the key. */
  lemma IssuedByIsGood(body: Envelope -> Option<Value>, sign: Bytes -> Bytes, verify: (Bytes, Bytes) -> bool,
                       sigilId: string, caps: Slice<CapabilityToken>, issuedAt: Timestamp, expiresAt: Timestamp)
    requires IgnoresSignature(body) && forall m :: verify(m, sign(m))
    requires IssueBy(body, sign, sigilId, caps, issuedAt, expiresAt).Some?
    ensures CheckBy(body, verify)(IssueBy(body, sign, sigilId, caps, issuedAt, expiresAt).value) == Good
  {
    var unsigned := Envelope(VERSION, sigilId, caps, ISSUER, issuedAt, expiresAt, NilSlice);
    var m := CanonicalBytes(body(unsigned).value);
    var env := unsigned.(signature := Of(sign(m)));
    assert body(env) == body(unsigned);
    assert verify(m, sign(m));
    CheckMeaning(body, verify, env);
  }

  /** Issuing succeeds exactly for timestamps that RFC 3339 can hold. */
  lemma IssueSucceeds(sign: Bytes -> Bytes, sigilId: string, caps: Slice<CapabilityToken>,
                      issuedAt: Timestamp, expiresAt: Timestamp)
    ensures Issue(sign, sigilId, caps, issuedAt, expiresAt).Some? <==>
            && Encodable(issuedAt) && Encodable(expiresAt)
            && forall i :: 0 <= i < |caps.Items()| ==>
                 Encodable(caps.Items()[i].issuedAt) && Encodable(caps.Items()[i].expiresAt)
  {
    var e := Envelope(VERSION, sigilId, caps, ISSUER, issuedAt, expiresAt, NilSlice);
    SignedBytesExist(e);
    EnvelopeJsonExists(e);
  }

  /** An issued envelope carries the signature of its own signed bytes. */
  lemma IssuedIsSigned(sign: Bytes -> Bytes, sigilId: string, caps: Slice<CapabilityToken>,
                       issuedAt: Timestamp, expiresAt: Timestamp)
    requires Issue(sign, sigilId, caps, issuedAt, expiresAt).Some?
    ensures var env := Issue(sign, sigilId, caps, issuedAt, expiresAt).value;
            && SignedBytes(env).Some?
            && env.signature == Of(sign(SignedBytes(env).value))
  {
    var unsigned := Envelope(VERSION, sigilId, caps, ISSUER, issuedAt, expiresAt, NilSlice);
    SignedBytesIgnoreSignature(unsigned, Of(sign(SignedBytes(unsigned).value)));
  }

  /** Any envelope signed over its own bytes passes the signature check, also after it has travelled as JSON. */
  lemma SignedIsGood(sign: Bytes -> Bytes, verify: (Bytes, Bytes) -> bool, env: Envelope)
    requires forall m :: verify(m, sign(m))
    requires SignedBytes(env).Some? && env.signature == Of(sign(SignedBytes(env).value))
    ensures EnvelopeJson(env).Some? && ReadEnvelope(EnvelopeJson(env).value).Some?
    ensures CheckWith(verify)(ReadEnvelope(EnvelopeJson(env).value).value) == Good
  {
    EnvelopeRoundTrip(env);
    assert verify(SignedBytes(env).value, env.signature.Items());
  }

  lemma IssuedIsGood(sign: Bytes -> Bytes, verify: (Bytes, Bytes) -> bool, sigilId: string,
                     caps: Slice<CapabilityToken>, issuedAt: Timestamp, expiresAt: Timestamp)
    requires forall m :: verify(m, sign(m))
    requires Issue(sign, sigilId, caps, issuedAt, expiresAt).Some?
    ensures var env := Issue(sign, sigilId, caps, issuedAt, expiresAt).value;
            && EnvelopeJson(env).Some? && ReadEnvelope(EnvelopeJson(env).value).Some?
            && CheckWith(verify)(ReadEnvelope(EnvelopeJson(env).value).value) == Good
  {
    IssuedIsSigned(sign, sigilId, caps, issuedAt, expiresAt);
    SignedIsGood(sign, verify, Issue(sign, sigilId, caps, issuedAt, expiresAt).value);
  }

  /** Only messages of the given envelopes verify: what unforgeability of the key gives. */
  ghost predicate OnlySigned(verify: (Bytes, Bytes) -> bool, issued: set<Envelope>) {
    forall m, s :: verify(m, s) ==> exists e :: e in issued && SignedBytes(e) == Some(m)
  }

  /** Then an envelope that passes is one of those, field by field, up to its signature. */
  lemma GoodWasIssued(verify: (Bytes, Bytes) -> bool, issued: set<Envelope>, env: Envelope) returns (e: Envelope)
    requires OnlySigned(verify, issued) && CheckWith(verify)(env) == Good
    ensures e in issued && env == e.(signature := env.signature)
  {
    var m := SignedBytes(env).value;
    assert verify(m, env.signature.Items());
    e :| e in issued && SignedBytes(e) == Some(m);
    SignedBytesBind(e, env);
  }
}
