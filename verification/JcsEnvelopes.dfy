/** When the bytes that a signature covers are those of RFC 8785. */
module JcsEnvelopes {
  import opened Protocol
  import opened Encoding
  import opened Utf8
  import opened Utf16
  import opened Sorting
  import opened Json
  import opened GoInt
  import opened Rfc3339
  import opened Canonical
  import opened Documents
  import opened Attestation
  import opened Jcs

  // ----- Texts that are always plain -----

  lemma PlainConcat(a: string, b: string)
    ensures PlainText(a + b) <==> PlainText(a) && PlainText(b)
  {
    assert forall i :: 0 <= i < |a| ==> (a + b)[i] == a[i];
    assert forall i :: 0 <= i < |b| ==> (a + b)[|a| + i] == b[i];
  }

  lemma {:induction false} Base64IsPlain(b: Bytes)
    ensures PlainText(Base64(b))
  {
    if |b| > 2 {
      Base64IsPlain(b[3..]);
      PlainConcat(Base64Group3(b[0], b[1], b[2]), Base64(b[3..]));
    }
  }

  lemma TwoIsPlain(n: nat)
    requires n < 100
    ensures PlainText(Two(n))
  {
  }

  lemma CivilIsPlain(c: Civil)
    requires Regular(c)
    ensures PlainText(CivilText(c))
  {
    TwoIsPlain(c.year / 100);
    TwoIsPlain(c.year % 100);
    TwoIsPlain(c.month);
    TwoIsPlain(c.day);
    TwoIsPlain(c.hour);
    TwoIsPlain(c.minute);
    TwoIsPlain(c.second);
    var y := Two(c.year / 100) + Two(c.year % 100);
    PlainConcat(Two(c.year / 100), Two(c.year % 100));
    PlainConcat(y, "-");
    PlainConcat(y + "-", Two(c.month));
    var m := y + "-" + Two(c.month);
    PlainConcat(m, "-");
    PlainConcat(m + "-", Two(c.day));
    var d := m + "-" + Two(c.day);
    PlainConcat(d, "T");
    PlainConcat(d + "T", Two(c.hour));
    var h := d + "T" + Two(c.hour);
    PlainConcat(h, ":");
    PlainConcat(h + ":", Two(c.minute));
    var n := h + ":" + Two(c.minute);
    PlainConcat(n, ":");
    PlainConcat(n + ":", Two(c.second));
  }

  lemma FractionIsPlain(n: nat, w: nat)
    requires n < Power(w)
    ensures PlainText(FractionText(n, w))
  {
    PlainConcat(".", FractionDigits(n, w));
  }

  lemma ZoneIsPlain(zone: int)
    requires -1440 < zone < 1440
    ensures PlainText(ZoneText(zone))
  {
    var m := if zone < 0 then -zone else zone;
    TwoIsPlain(m / 60);
    TwoIsPlain(m % 60);
    var sign := if zone < 0 then "-" else "+";
    PlainConcat(sign, Two(m / 60));
    PlainConcat(sign + Two(m / 60), ":");
    PlainConcat(sign + Two(m / 60) + ":", Two(m % 60));
  }

  lemma TextIsPlain(c: Civil, fraction: nat, w: nat, zone: int)
    requires Regular(c) && fraction < Power(w) && -1440 < zone < 1440
    ensures PlainText(TextOf(c, fraction, w, zone))
  {
    CivilIsPlain(c);
    FractionIsPlain(fraction, w);
    ZoneIsPlain(zone);
    PlainConcat(FractionText(fraction, w), ZoneText(zone));
    PlainConcat(CivilText(c), FractionText(fraction, w) + ZoneText(zone));
  }

  lemma TimeIsPlain(t: Timestamp)
    requires Encodable(t)
    ensures PlainText(TimeText(t))
  {
    NinePlaces();
    TextIsPlain(ToCivil(LocalNanos(t) / SECOND), LocalNanos(t) % SECOND, 9, t.zone);
  }

  ghost predicate PlainTimes(times: TimeFormat) {
    forall t :: times.write(t).Some? ==> PlainText(times.write(t).value)
  }

  lemma Rfc3339IsPlain()
    ensures PlainTimes(RFC3339)
  {
    forall t | RFC3339.write(t).Some? ensures PlainText(RFC3339.write(t).value) {
      TimeIsPlain(t);
    }
  }

  // ----- Objects with ASCII keys -----

  ghost predicate Conforms(v: Value) {
    PlainValue(v) && Unswapped(v)
  }

  predicate PlainKey(k: string) {
    forall i :: 0 <= i < |k| ==> k[i] as int < 0x80 && !Html(k[i])
  }

  lemma PlainKeysUnswapped(a: string, b: string)
    requires PlainKey(a)
    ensures PlainText(a) && !Swapped(a, b)
  {
  }

  lemma ObjectConforms(fields: map<string, Value>)
    requires forall k :: k in fields ==> PlainKey(k)
    ensures Conforms(Obj(fields)) <==> forall k :: k in fields ==> Conforms(fields[k])
  {
    forall a, b | a in fields ensures PlainText(a) && !Swapped(a, b) {
      PlainKeysUnswapped(a, b);
    }
  }

  lemma KeyOfMember(ms: seq<Member>, k: string) returns (i: nat)
    requires k in DenoteMembers(ms)
    ensures i < |ms| && ms[i].key == k
  {
    DenotedKeys(ms);
    assert k in Elements(KeysOf(ms));
    i :| 0 <= i < |ms| && KeysOf(ms)[i] == k;
  }

  /** The object of a list of members, one of them left out. */
  lemma MembersConform(ms: seq<Member>, skip: string)
    requires DistinctKeys(ms) && forall i :: 0 <= i < |ms| ==> PlainKey(ms[i].key)
    ensures Conforms(Obj(DenoteMembers(ms) - {skip})) <==>
            forall i :: 0 <= i < |ms| && ms[i].key != skip ==> Conforms(Denote(ms[i].value))
  {
    var fields := DenoteMembers(ms) - {skip};
    DenotedHold(ms);
    forall k | k in fields ensures PlainKey(k) {
      var i := KeyOfMember(ms, k);
    }
    ObjectConforms(fields);
    if forall i :: 0 <= i < |ms| && ms[i].key != skip ==> Conforms(Denote(ms[i].value)) {
      forall k | k in fields ensures Conforms(fields[k]) {
        var i := KeyOfMember(ms, k);
        assert Holds(DenoteMembers(ms), ms[i]);
      }
    }
    if Conforms(Obj(fields)) {
      forall i | 0 <= i < |ms| && ms[i].key != skip ensures Conforms(Denote(ms[i].value)) {
        assert Holds(DenoteMembers(ms), ms[i]);
        assert ms[i].key in fields;
      }
    }
  }

  // ----- The body of an envelope -----

  predicate PlainOption(text: Option<string>) {
    text.Some? ==> PlainText(text.value)
  }

  predicate PlainCapDoc(c: CapDoc) {
    && PlainText(c.id) && PlainText(c.sigilId) && PlainText(c.scope)
    && PlainText(c.issuedAt) && PlainText(c.expiresAt) && PlainOption(c.nonce)
  }

  lemma CapKeysArePlain(c: CapDoc)
    ensures DistinctKeys(CapMembers(c))
    ensures forall i :: 0 <= i < |CapMembers(c)| ==> PlainKey(CapMembers(c)[i].key) && CapMembers(c)[i].key != ""
  {
    assert PlainKey("id") && PlainKey("scope") && PlainKey("nonce");
    SharedKeysArePlain();
  }

  lemma SharedKeysArePlain()
    ensures PlainKey("sigil_id") && PlainKey("issued_at") && PlainKey("expires_at")
  {
  }

  lemma StringConforms(s: string)
    ensures Conforms(Denote(TStr(s))) <==> PlainText(s)
  {
  }

  lemma OptionConforms(text: Option<string>)
    ensures Conforms(Denote(OptionalTree(text))) <==> PlainOption(text)
  {
  }

  ghost predicate Fine(m: Member) {
    Conforms(Denote(m.value))
  }

  lemma CapMembersFine(c: CapDoc)
    ensures (forall i :: 0 <= i < |CapMembers(c)| ==> Fine(CapMembers(c)[i])) <==> PlainCapDoc(c)
  {
    var ms := CapMembers(c);
    StringConforms(c.id);
    StringConforms(c.sigilId);
    StringConforms(c.scope);
    StringConforms(c.issuedAt);
    StringConforms(c.expiresAt);
    OptionConforms(c.nonce);
    assert Fine(ms[0]) <==> PlainText(c.id);
    assert Fine(ms[1]) <==> PlainText(c.sigilId);
    assert Fine(ms[2]) <==> PlainText(c.scope);
    assert Fine(ms[3]) <==> PlainText(c.issuedAt);
    assert Fine(ms[4]) <==> PlainText(c.expiresAt);
    assert Fine(ms[5]) <==> PlainOption(c.nonce);
  }

  lemma WithoutAbsent(fields: map<string, Value>, key: string)
    requires key !in fields
    ensures fields - {key} == fields
  {
  }

  lemma CapConforms(c: CapDoc)
    ensures Conforms(Denote(TObj(CapMembers(c)))) <==> PlainCapDoc(c)
  {
    var ms := CapMembers(c);
    CapKeysArePlain(c);
    MembersConform(ms, "");
    if "" in DenoteMembers(ms) {
      var i := KeyOfMember(ms, "");
    }
    WithoutAbsent(DenoteMembers(ms), "");
    CapMembersFine(c);
    assert (forall i :: 0 <= i < |ms| && ms[i].key != "" ==> Conforms(Denote(ms[i].value))) <==>
           forall i :: 0 <= i < |ms| ==> Fine(ms[i]);
  }

  lemma {:induction false} CapItemAt(caps: seq<CapDoc>, i: nat)
    requires i < |caps|
    ensures |DenoteItems(CapTrees(caps))| == |caps|
    ensures DenoteItems(CapTrees(caps))[i] == Denote(TObj(CapMembers(caps[i])))
  {
    DenoteNext(TObj(CapMembers(caps[0])), CapTrees(caps[1..]));
    if |caps| > 1 {
      CapItemAt(caps[1..], if i > 0 then i - 1 else 0);
    }
  }

  lemma ItemsConform(items: seq<Value>)
    ensures Conforms(Arr(items)) <==> forall i :: 0 <= i < |items| ==> Conforms(items[i])
  {
  }

  predicate PlainCapDocs(caps: seq<CapDoc>) {
    forall i :: 0 <= i < |caps| ==> PlainCapDoc(caps[i])
  }

  lemma {:induction false} CapsConformEach(caps: seq<CapDoc>, items: seq<Value>)
    requires items == DenoteItems(CapTrees(caps))
    ensures |items| == |caps| && forall i :: 0 <= i < |caps| ==> (Conforms(items[i]) <==> PlainCapDoc(caps[i]))
  {
    if caps != [] {
      CapItemAt(caps, 0);
    }
    forall i | 0 <= i < |caps| ensures Conforms(items[i]) <==> PlainCapDoc(caps[i]) {
      CapItemAt(caps, i);
      CapConforms(caps[i]);
    }
  }

  lemma EachOf(caps: seq<CapDoc>, items: seq<Value>)
    requires |items| == |caps| && forall i :: 0 <= i < |caps| ==> (Conforms(items[i]) <==> PlainCapDoc(caps[i]))
    ensures (forall i :: 0 <= i < |items| ==> Conforms(items[i])) <==> PlainCapDocs(caps)
  {
  }

  lemma CapsConform(caps: seq<CapDoc>)
    ensures Conforms(Arr(DenoteItems(CapTrees(caps)))) <==> PlainCapDocs(caps)
  {
    var items := DenoteItems(CapTrees(caps));
    CapsConformEach(caps, items);
    EachOf(caps, items);
    ItemsConform(items);
  }

  lemma SliceConforms(caps: Slice<CapDoc>)
    ensures Conforms(Denote(CapsTree(caps))) <==> PlainCapDocs(caps.Items())
  {
    match caps
    case NilSlice => assert Conforms(Null);
    case Of(items) => CapsConform(items);
  }

  predicate PlainDoc(d: EnvelopeDoc) {
    && PlainText(d.version) && PlainText(d.sigilId) && PlainText(d.issuer)
    && PlainText(d.issuedAt) && PlainText(d.expiresAt)
    && PlainCapDocs(d.caps.Items())
  }

  lemma OwnKeysArePlain()
    ensures PlainKey("version") && PlainKey("caps") && PlainKey("issuer") && PlainKey("signature")
  {
  }

  lemma KeysArePlain(d: EnvelopeDoc)
    ensures forall i :: 0 <= i < |Members(d)| ==> PlainKey(Members(d)[i].key)
  {
    OwnKeysArePlain();
    SharedKeysArePlain();
    var ms := Members(d);
    assert ms[0].key == "version" && ms[1].key == "sigil_id" && ms[2].key == "caps" && ms[3].key == "issuer";
    assert ms[4].key == "issued_at" && ms[5].key == "expires_at" && ms[6].key == "signature";
    forall i | 0 <= i < |ms| ensures PlainKey(ms[i].key) {
      assert i in {0, 1, 2, 3, 4, 5, 6};
    }
  }

  lemma MembersFine(d: EnvelopeDoc)
    ensures (forall i :: 0 <= i < 6 ==> Fine(Members(d)[i])) <==> PlainDoc(d)
  {
    var ms := Members(d);
    StringConforms(d.version);
    StringConforms(d.sigilId);
    StringConforms(d.issuer);
    StringConforms(d.issuedAt);
    StringConforms(d.expiresAt);
    SliceConforms(d.caps);
    assert Fine(ms[0]) <==> PlainText(d.version);
    assert Fine(ms[1]) <==> PlainText(d.sigilId);
    assert Fine(ms[2]) <==> PlainCapDocs(d.caps.Items());
    assert Fine(ms[3]) <==> PlainText(d.issuer);
    assert Fine(ms[4]) <==> PlainText(d.issuedAt);
    assert Fine(ms[5]) <==> PlainText(d.expiresAt);
  }

  lemma BodyMembersFine(d: EnvelopeDoc, ms: seq<Member>)
    requires ms == Members(d)
    ensures (forall i :: 0 <= i < |ms| && ms[i].key != "signature" ==> Conforms(Denote(ms[i].value))) <==> PlainDoc(d)
  {
    MembersFine(d);
    assert ms[6].key == "signature";
    forall i | 0 <= i < 6 ensures ms[i].key != "signature" {
      MembersHold(d);
      assert ms[i].key != ms[6].key;
    }
    assert forall i :: 0 <= i < |ms| ==> (Fine(ms[i]) <==> Conforms(Denote(ms[i].value)));
  }

  lemma BodyConforms(d: EnvelopeDoc)
    ensures Body(ToJson(d)).Some? && (Conforms(Body(ToJson(d)).value) <==> PlainDoc(d))
  {
    BodyOf(d);
    MembersHold(d);
    KeysArePlain(d);
    MembersConform(Members(d), "signature");
    BodyMembersFine(d, Members(d));
  }

  // ----- The envelope itself -----

  predicate PlainCap(c: CapabilityToken) {
    PlainText(c.id) && PlainText(c.sigilId) && PlainText(c.scope)
  }

  predicate PlainCaps(caps: seq<CapabilityToken>) {
    forall i :: 0 <= i < |caps| ==> PlainCap(caps[i])
  }

  predicate PlainEnvelope(e: Envelope) {
    PlainText(e.version) && PlainText(e.sigilId) && PlainText(e.issuer) && PlainCaps(e.caps.Items())
  }

  lemma BlobIsPlain(b: Slice<Byte>)
    ensures PlainOption(BlobText(b))
  {
    if b.Of? {
      Base64IsPlain(b.elements);
    }
  }

  lemma CapDocIsPlain(times: TimeFormat, c: CapabilityToken)
    requires PlainTimes(times) && CapDocOf(times, c).Some?
    ensures PlainCapDoc(CapDocOf(times, c).value) <==> PlainCap(c)
  {
    BlobIsPlain(c.nonce);
  }

  lemma PlainNextCap(d: CapDoc, ds: seq<CapDoc>, c: CapabilityToken, cs: seq<CapabilityToken>)
    requires (PlainCapDoc(d) <==> PlainCap(c)) && (PlainCapDocs(ds) <==> PlainCaps(cs))
    ensures PlainCapDocs([d] + ds) <==> PlainCaps([c] + cs)
  {
    assert forall i :: 0 <= i < |ds| ==> ([d] + ds)[i + 1] == ds[i];
    assert forall i :: 0 <= i < |cs| ==> ([c] + cs)[i + 1] == cs[i];
    assert ([d] + ds)[0] == d && ([c] + cs)[0] == c;
  }

  lemma {:induction false} CapDocsArePlain(times: TimeFormat, caps: seq<CapabilityToken>)
    requires PlainTimes(times) && CapDocs(times, caps).Some?
    ensures PlainCapDocs(CapDocs(times, caps).value) <==> PlainCaps(caps)
  {
    if caps != [] {
      CapDocIsPlain(times, caps[0]);
      CapDocsArePlain(times, caps[1..]);
      PlainNextCap(CapDocOf(times, caps[0]).value, CapDocs(times, caps[1..]).value, caps[0], caps[1..]);
      assert caps == [caps[0]] + caps[1..];
    }
  }

  lemma DocIsPlain(times: TimeFormat, e: Envelope)
    requires PlainTimes(times) && DocOf(times, e).Some?
    ensures PlainDoc(DocOf(times, e).value) <==> PlainEnvelope(e)
  {
    match e.caps
    case NilSlice =>
    case Of(items) => CapDocsArePlain(times, items);
  }

  lemma SameEncoding(s: string, t: string)
    ensures Encode(s) == Encode(t) <==> s == t
  {
    DecodeEncode(s);
    DecodeEncode(t);
  }

  /**
   What is signed is the RFC 8785 form of the body if and only if no version,
   sigil id, issuer, cap id or scope contains one of the five characters that
   encoding/json escapes beyond it.
   */
  lemma SignedBytesAreJcs(e: Envelope)
    requires SignedBytes(e).Some?
    ensures SignedBytes(e) == Some(Encode(JcsText(EnvelopeBody(e).value))) <==> PlainEnvelope(e)
  {
    var d := DocOf(RFC3339, e).value;
    var v := EnvelopeBody(e).value;
    BodyConforms(d);
    Rfc3339IsPlain();
    DocIsPlain(RFC3339, e);
    JcsExactly(v);
    SameEncoding(CanonicalText(v), JcsText(v));
  }

  /** An envelope that the broker may well issue: one cap, for the scope a<b. */
  function Example(): Envelope {
    var epoch := Timestamp(0, 0);
    Envelope(VERSION, "sigil", Of([CapabilityToken("cap", "sigil", "a<b", epoch, epoch, Of([1]))]), ISSUER, epoch, epoch,
             NilSlice)
  }

  lemma NotJcs(e: Envelope)
    requires AllTimes(Encodable, e) && !PlainEnvelope(e)
    ensures SignedBytes(e).Some? && SignedBytes(e) != Some(Encode(JcsText(EnvelopeBody(e).value)))
  {
    EnvelopeJsonExists(e);
    SignedBytesExist(e);
    SignedBytesAreJcs(e);
  }

  lemma ExampleIsNotPlain()
    ensures AllTimes(Encodable, Example()) && !PlainEnvelope(Example())
  {
    var scope := "a<b";
    assert Html(scope[1]);
    assert Example().caps.Items()[0].scope == scope;
  }

  lemma ExampleIsNotJcs()
    ensures SignedBytes(Example()).Some?
    ensures SignedBytes(Example()) != Some(Encode(JcsText(EnvelopeBody(Example()).value)))
  {
    ExampleIsNotPlain();
    NotJcs(Example());
  }
}
