/**
 The JSON object of an envelope, field by field, with timestamps and byte strings
 already in their text form (a nil byte slice is null). encoding/json writes the
 fields in the order of the Go struct.
 */
module Documents {
  import opened Protocol
  import opened Utf8
  import opened Json
  import opened Canonical

  datatype CapDoc = CapDoc(id: string, sigilId: string, scope: string, issuedAt: string, expiresAt: string,
                           nonce: Option<string>)

  datatype EnvelopeDoc = EnvelopeDoc(version: string, sigilId: string, caps: Slice<CapDoc>, issuer: string,
                                     issuedAt: string, expiresAt: string, signature: Option<string>)

  // ----- Writing -----

  function OptionalTree(text: Option<string>): Tree {
    match text
    case None => TNull
    case Some(s) => TStr(s)
  }

  function CapMembers(c: CapDoc): seq<Member> {
    [Member("id", TStr(c.id)), Member("sigil_id", TStr(c.sigilId)), Member("scope", TStr(c.scope)),
     Member("issued_at", TStr(c.issuedAt)), Member("expires_at", TStr(c.expiresAt)),
     Member("nonce", OptionalTree(c.nonce))]
  }

  function CapTrees(caps: seq<CapDoc>): seq<Tree> {
    if caps == [] then [] else [TObj(CapMembers(caps[0]))] + CapTrees(caps[1..])
  }

  function CapsTree(caps: Slice<CapDoc>): Tree {
    match caps
    case NilSlice => TNull
    case Of(items) => TArr(CapTrees(items))
  }

  function Members(d: EnvelopeDoc): seq<Member> {
    [Member("version", TStr(d.version)), Member("sigil_id", TStr(d.sigilId)), Member("caps", CapsTree(d.caps)),
     Member("issuer", TStr(d.issuer)), Member("issued_at", TStr(d.issuedAt)),
     Member("expires_at", TStr(d.expiresAt)), Member("signature", OptionalTree(d.signature))]
  }

  function ToJson(d: EnvelopeDoc): Bytes {
    Encode(Print(TObj(Members(d))))
  }

  /** The document as a map, without its signature. */
  function Body(json: Bytes): Option<Value> {
    var v :- Read(json);
    if v.Obj? then Some(Obj(v.fields - {"signature"})) else None
  }

  // ----- Reading -----

  function Text(fields: map<string, Value>, key: string): Option<string> {
    if key in fields && fields[key].Str? then Some(fields[key].s) else None
  }

  function OptionalText(fields: map<string, Value>, key: string): Option<Option<string>> {
    if key in fields && fields[key].Null? then Some(None)
    else
      var s :- Text(fields, key);
      Some(Some(s))
  }

  function ReadCap(v: Value): Option<CapDoc> {
    if !v.Obj? then None
    else
      var id :- Text(v.fields, "id");
      var sigilId :- Text(v.fields, "sigil_id");
      var scope :- Text(v.fields, "scope");
      var issuedAt :- Text(v.fields, "issued_at");
      var expiresAt :- Text(v.fields, "expires_at");
      var nonce :- OptionalText(v.fields, "nonce");
      Some(CapDoc(id, sigilId, scope, issuedAt, expiresAt, nonce))
  }

  function ReadCapList(vs: seq<Value>): Option<seq<CapDoc>> {
    if vs == [] then Some([])
    else
      var cap :- ReadCap(vs[0]);
      var rest :- ReadCapList(vs[1..]);
      Some([cap] + rest)
  }

  function ReadCaps(v: Value): Option<Slice<CapDoc>> {
    if v.Null? then Some(NilSlice)
    else if v.Arr? then
      var caps :- ReadCapList(v.items);
      Some(Of(caps))
    else None
  }

  /** The document with these fields and this signature. */
  function ReadFields(fields: map<string, Value>, signature: Option<string>): Option<EnvelopeDoc> {
    var version :- Text(fields, "version");
    var sigilId :- Text(fields, "sigil_id");
    var caps :- if "caps" in fields then ReadCaps(fields["caps"]) else None;
    var issuer :- Text(fields, "issuer");
    var issuedAt :- Text(fields, "issued_at");
    var expiresAt :- Text(fields, "expires_at");
    Some(EnvelopeDoc(version, sigilId, caps, issuer, issuedAt, expiresAt, signature))
  }

  function FromJson(json: Bytes): Option<EnvelopeDoc> {
    var v :- Read(json);
    if !v.Obj? then None
    else
      var signature :- OptionalText(v.fields, "signature");
      ReadFields(v.fields, signature)
  }

  // ----- Reading undoes writing -----

  ghost predicate DistinctKeys(members: seq<Member>) {
    forall i, j :: 0 <= i < j < |members| ==> members[i].key != members[j].key
  }

  ghost predicate Holds(fields: map<string, Value>, m: Member) {
    m.key in fields && fields[m.key] == Denote(m.value)
  }

  /** The fields hold all members but the one under this key. */
  ghost predicate HoldsExcept(fields: map<string, Value>, members: seq<Member>, key: string) {
    forall i :: 0 <= i < |members| && members[i].key != key ==> Holds(fields, members[i])
  }

  lemma DenotedHold(members: seq<Member>)
    requires DistinctKeys(members)
    ensures forall i :: 0 <= i < |members| ==> Holds(DenoteMembers(members), members[i])
  {
    forall i | 0 <= i < |members| ensures Holds(DenoteMembers(members), members[i]) {
      DenotedAt(members, i);
    }
  }

  lemma OptionalHeld(fields: map<string, Value>, key: string, text: Option<string>)
    requires key in fields && fields[key] == Denote(OptionalTree(text))
    ensures OptionalText(fields, key) == Some(text)
  {
  }

  lemma CapFieldsRead(c: CapDoc, fields: map<string, Value>)
    requires HoldsExcept(fields, CapMembers(c), "")
    ensures ReadCap(Obj(fields)) == Some(c)
  {
    var ms := CapMembers(c);
    assert Holds(fields, ms[0]) && Holds(fields, ms[1]) && Holds(fields, ms[2]);
    assert Holds(fields, ms[3]) && Holds(fields, ms[4]) && Holds(fields, ms[5]);
    OptionalHeld(fields, "nonce", c.nonce);
  }

  lemma CapReads(c: CapDoc)
    ensures ReadCap(Denote(TObj(CapMembers(c)))) == Some(c)
  {
    DenotedHold(CapMembers(c));
    CapFieldsRead(c, DenoteMembers(CapMembers(c)));
  }

  lemma NextCap(v: Value, vs: seq<Value>, cap: CapDoc, caps: seq<CapDoc>)
    requires ReadCap(v) == Some(cap) && ReadCapList(vs) == Some(caps)
    ensures ReadCapList([v] + vs) == Some([cap] + caps)
  {
    assert ([v] + vs)[1..] == vs;
  }

  lemma {:induction false} CapListReads(caps: seq<CapDoc>)
    ensures ReadCapList(DenoteItems(CapTrees(caps))) == Some(caps)
  {
    if caps != [] {
      var head, tail := TObj(CapMembers(caps[0])), CapTrees(caps[1..]);
      CapReads(caps[0]);
      CapListReads(caps[1..]);
      DenoteNext(head, tail);
      NextCap(Denote(head), DenoteItems(tail), caps[0], caps[1..]);
      assert caps == [caps[0]] + caps[1..];
    }
  }

  lemma CapsRead(caps: Slice<CapDoc>)
    ensures ReadCaps(Denote(CapsTree(caps))) == Some(caps)
  {
    if caps.Of? {
      CapListReads(caps.elements);
    }
  }

  lemma FieldsRead(d: EnvelopeDoc, fields: map<string, Value>, signature: Option<string>)
    requires HoldsExcept(fields, Members(d), "signature")
    ensures ReadFields(fields, signature) == Some(d.(signature := signature))
  {
    var ms := Members(d);
    assert Holds(fields, ms[0]) && Holds(fields, ms[1]) && Holds(fields, ms[2]);
    assert Holds(fields, ms[3]) && Holds(fields, ms[4]) && Holds(fields, ms[5]);
    CapsRead(d.caps);
  }

  lemma MembersHold(d: EnvelopeDoc)
    ensures DistinctKeys(Members(d))
    ensures forall i :: 0 <= i < |Members(d)| ==> Holds(DenoteMembers(Members(d)), Members(d)[i])
  {
    DenotedHold(Members(d));
  }

  lemma ReadsBack(members: seq<Member>)
    ensures Read(Encode(Print(TObj(members)))) == Some(Obj(DenoteMembers(members)))
  {
    DecodeEncode(Print(TObj(members)));
    ParsePrint(TObj(members));
  }

  lemma FieldsRoundTrip(d: EnvelopeDoc, fields: map<string, Value>)
    requires fields == DenoteMembers(Members(d))
    ensures OptionalText(fields, "signature") == Some(d.signature)
    ensures ReadFields(fields, d.signature) == Some(d)
  {
    MembersHold(d);
    assert Holds(fields, Members(d)[6]);
    OptionalHeld(fields, "signature", d.signature);
    FieldsRead(d, fields, d.signature);
  }

  lemma DocumentRoundTrip(d: EnvelopeDoc)
    ensures FromJson(ToJson(d)) == Some(d)
  {
    ReadsBack(Members(d));
    FieldsRoundTrip(d, DenoteMembers(Members(d)));
  }

  // ----- The signed part -----

  lemma BodyOf(d: EnvelopeDoc)
    ensures Body(ToJson(d)) == Some(Obj(DenoteMembers(Members(d)) - {"signature"}))
  {
    ReadsBack(Members(d));
  }

  lemma WithoutKey(fields: map<string, Value>, members: seq<Member>, key: string)
    requires forall i :: 0 <= i < |members| ==> Holds(fields, members[i])
    ensures HoldsExcept(fields - {key}, members, key)
  {
  }

  /** Everything but the signature can be read off the body. */
  lemma BodyReads(d: EnvelopeDoc, signature: Option<string>)
    ensures Body(ToJson(d)).Some? && Body(ToJson(d)).value.Obj?
    ensures ReadFields(Body(ToJson(d)).value.fields, signature) == Some(d.(signature := signature))
  {
    BodyOf(d);
    MembersHold(d);
    var fields := DenoteMembers(Members(d));
    WithoutKey(fields, Members(d), "signature");
    FieldsRead(d, fields - {"signature"}, signature);
  }

  lemma BodyBinds(d: EnvelopeDoc, e: EnvelopeDoc)
    requires Body(ToJson(d)) == Body(ToJson(e))
    ensures e == d.(signature := e.signature)
  {
    BodyReads(d, e.signature);
    BodyReads(e, e.signature);
  }

  ghost predicate AgreeExcept(x: map<string, Value>, y: map<string, Value>, key: string) {
    forall k :: k != key ==> (k in x <==> k in y) && (k in x ==> x[k] == y[k])
  }

  lemma ExtendAgreeing(x: map<string, Value>, y: map<string, Value>, key: string, m: Member, n: Member)
    requires AgreeExcept(x, y, key) && (m == n || (m.key == key && n.key == key))
    ensures AgreeExcept(map[m.key := Denote(m.value)] + x, map[n.key := Denote(n.value)] + y, key)
  {
  }

  /** Documents that differ only under one key denote maps that differ only there. */
  lemma {:induction false} DifferOnlyAt(ms: seq<Member>, ns: seq<Member>, key: string)
    requires |ms| == |ns|
    requires forall i :: 0 <= i < |ms| ==> ms[i] == ns[i] || (ms[i].key == key && ns[i].key == key)
    ensures AgreeExcept(DenoteMembers(ms), DenoteMembers(ns), key)
  {
    if ms != [] {
      DifferOnlyAt(ms[1..], ns[1..], key);
      ExtendAgreeing(DenoteMembers(ms[1..]), DenoteMembers(ns[1..]), key, ms[0], ns[0]);
    }
  }

  lemma SameWithout(x: map<string, Value>, y: map<string, Value>, key: string)
    requires AgreeExcept(x, y, key)
    ensures x - {key} == y - {key}
  {
  }

  /** The signature itself is not part of the body. */
  lemma BodyIgnoresSignature(d: EnvelopeDoc, signature: Option<string>)
    ensures Body(ToJson(d.(signature := signature))) == Body(ToJson(d))
  {
    var e := d.(signature := signature);
    BodyOf(d);
    BodyOf(e);
    DifferOnlyAt(Members(d), Members(e), "signature");
    SameWithout(DenoteMembers(Members(d)), DenoteMembers(Members(e)), "signature");
  }
}
