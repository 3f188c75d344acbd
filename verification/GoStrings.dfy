/**
 Go strings are bytes. Where they are not valid UTF-8, encoding/json puts U+FFFD
 for every byte that does not belong to a character; this is where a signature
 stops covering the string exactly.
 */
module GoStrings {
  import opened Protocol
  import opened Utf8
  import opened Attestation

  const REPLACEMENT := 0xFFFD as char

  /** What becomes of a string on its way through JSON. */
  function Coerce(b: Bytes): string
    decreases |b|
  {
    if b == [] then ""
    else match DecodeChar(b)
      case None => [REPLACEMENT] + Coerce(b[1..])
      case Some((c, n)) => [c] + Coerce(b[n..])
  }

  // ----- One string -----

  lemma CoerceCons(e: Bytes, rest: Bytes, c: char)
    requires e != [] && DecodeChar(e + rest) == Some((c, |e|))
    ensures Coerce(e + rest) == [c] + Coerce(rest)
  {
    assert (e + rest)[|e|..] == rest;
  }

  lemma CoerceNext(c: char, tail: Bytes, rest: Bytes, t: string, u: string)
    requires Coerce(tail + rest) == t + u
    ensures Coerce(EncodeChar(c) + tail + rest) == [c] + t + u
  {
    var head := EncodeChar(c);
    EncodedLength(c);
    DecodeEncodeChar(c, tail + rest);
    CoerceCons(head, tail + rest, c);
    Associative(head, tail, rest);
    assert [c] + (t + u) == [c] + t + u;
  }

  /** Valid UTF-8 comes through unchanged, whatever follows it. */
  lemma {:induction false} CoerceEncoded(s: string, rest: Bytes)
    ensures Coerce(Encode(s) + rest) == s + Coerce(rest)
  {
    if s == "" {
      assert Encode(s) + rest == rest;
    } else {
      CoerceEncoded(s[1..], rest);
      CoerceNext(s[0], Encode(s[1..]), rest, s[1..], Coerce(rest));
      assert s == [s[0]] + s[1..];
    }
  }

  lemma ShiftBack(high: int, b: Byte)
    requires Shift(high, b) >= 0
    ensures Shift(high, b) / 0x40 == high && 0x80 + Shift(high, b) % 0x40 == b && high >= 0
  {
  }

  lemma TwoBytes(b: Bytes)
    requires |b| >= 2 && 0xC0 <= b[0] < 0xE0 && DecodeChar(b).Some?
    ensures b[..2] == EncodeChar(DecodeChar(b).value.0)
  {
    ShiftBack(b[0] - 0xC0, b[1]);
  }

  lemma ThreeBytes(b: Bytes)
    requires |b| >= 3 && 0xE0 <= b[0] < 0xF0 && DecodeChar(b).Some?
    ensures b[..3] == EncodeChar(DecodeChar(b).value.0)
  {
    ShiftBack(Shift(b[0] - 0xE0, b[1]), b[2]);
    ShiftBack(b[0] - 0xE0, b[1]);
  }

  lemma FourBytes(b: Bytes)
    requires |b| >= 4 && 0xF0 <= b[0] < 0xF8 && DecodeChar(b).Some?
    ensures b[..4] == EncodeChar(DecodeChar(b).value.0)
  {
    ShiftBack(Shift(Shift(b[0] - 0xF0, b[1]), b[2]), b[3]);
    ShiftBack(Shift(b[0] - 0xF0, b[1]), b[2]);
    ShiftBack(b[0] - 0xF0, b[1]);
  }

  /** A character has only one encoding. */
  lemma DecodedChar(b: Bytes)
    requires b != [] && DecodeChar(b).Some?
    ensures b[..DecodeChar(b).value.1] == EncodeChar(DecodeChar(b).value.0)
  {
    if 0xC0 <= b[0] < 0xE0 {
      TwoBytes(b);
    } else if 0xE0 <= b[0] < 0xF0 {
      ThreeBytes(b);
    } else if 0xF0 <= b[0] < 0xF8 {
      FourBytes(b);
    }
  }

  lemma BadHead(b: Bytes)
    requires b != []
    ensures DecodeChar(b).None? ==> REPLACEMENT in Coerce(b)
  {
  }

  /** A string that shows no U+FFFD can be read off what it becomes. */
  lemma {:induction false} NothingReplaced(b: Bytes)
    requires REPLACEMENT !in Coerce(b)
    ensures Encode(Coerce(b)) == b
    decreases |b|
  {
    if b != [] {
      BadHead(b);
      var (c, n) := DecodeChar(b).value;
      var rest := b[n..];
      assert b == EncodeChar(c) + rest by {
        DecodedChar(b);
        assert b == b[..n] + rest;
      }
      var t := Coerce(rest);
      assert forall x :: x in t ==> x in [c] + t;
      NothingReplaced(rest);
      EncodeCons(c, t);
    }
  }

  lemma EncodeCons(c: char, t: string)
    ensures Encode([c] + t) == EncodeChar(c) + Encode(t)
  {
    assert ([c] + t)[1..] == t;
  }

  lemma StrayByte(rest: Bytes)
    ensures Coerce([0xFF] + rest) == [REPLACEMENT] + Coerce(rest)
  {
    assert ([0xFF] + rest)[1..] == rest;
  }

  lemma CoerceValid(s: string)
    ensures Coerce(Encode(s)) == s
  {
    CoerceEncoded(s, []);
    assert Encode(s) + [] == Encode(s) && s + Coerce([]) == s;
  }

  lemma EncodeAround(front: string, back: string)
    ensures |Encode(front + ([REPLACEMENT] + back))| == |Encode(front)| + 3 + |Encode(back)|
  {
    EncodeConcat(front, [REPLACEMENT] + back);
    EncodeCons(REPLACEMENT, back);
  }

  lemma BrokenText(front: string, back: string)
    ensures Coerce(Encode(front) + ([0xFF] + Encode(back))) == front + ([REPLACEMENT] + back)
  {
    var bad := [0xFF] + Encode(back);
    assert Coerce(bad) == [REPLACEMENT] + back by {
      StrayByte(Encode(back));
      CoerceValid(back);
    }
    CoerceEncoded(front, bad);
  }

  /** The same text, its U+FFFD given by a byte that belongs to no character. */
  lemma BrokenTwin(s: string, front: string, back: string) returns (d: Bytes)
    requires s == front + ([REPLACEMENT] + back)
    ensures Coerce(d) == s && d != Encode(s)
  {
    d := Encode(front) + ([0xFF] + Encode(back));
    BrokenText(front, back);
    EncodeAround(front, back);
  }

  /** A string with the same text: the valid one, or one with a stray byte. */
  lemma Twin(b: Bytes) returns (d: Bytes)
    requires REPLACEMENT in Coerce(b)
    ensures d != b && Coerce(d) == Coerce(b)
  {
    var s := Coerce(b);
    var p :| 0 <= p < |s| && s[p] == REPLACEMENT;
    if b == Encode(s) {
      assert s == s[..p] + ([REPLACEMENT] + s[p + 1..]);
      d := BrokenTwin(s, s[..p], s[p + 1..]);
    } else {
      CoerceValid(s);
      d := Encode(s);
    }
  }

  lemma SameText(b: Bytes, d: Bytes)
    requires REPLACEMENT !in Coerce(b) && Coerce(d) == Coerce(b)
    ensures d == b
  {
    NothingReplaced(b);
    NothingReplaced(d);
  }

  lemma {:induction false} ValidCoerces(b: Bytes)
    ensures Decode(b).Some? ==> Coerce(b) == Decode(b).value
    ensures REPLACEMENT !in Coerce(b) ==> Decode(b).Some?
    decreases |b|
  {
    if b != [] && DecodeChar(b).Some? {
      ValidCoerces(b[DecodeChar(b).value.1..]);
    }
  }

  /** A string is the only one with its text if and only if it is valid UTF-8 and does not contain U+FFFD. */
  lemma TextExactly(b: Bytes)
    ensures (forall d :: Coerce(d) == Coerce(b) ==> d == b) <==> Decode(b).Some? && '\U{FFFD}' !in Decode(b).value
  {
    ValidCoerces(b);
    if REPLACEMENT in Coerce(b) {
      var d := Twin(b);
    } else {
      forall d | Coerce(d) == Coerce(b) ensures d == b {
        SameText(b, d);
      }
    }
  }

  // ----- A whole envelope -----

  datatype GoCap = GoCap(id: Bytes, sigilId: Bytes, scope: Bytes, issuedAt: Timestamp, expiresAt: Timestamp,
                         nonce: Slice<Byte>)

  datatype GoEnvelope = GoEnvelope(version: Bytes, sigilId: Bytes, caps: Slice<GoCap>, issuer: Bytes,
                                   issuedAt: Timestamp, expiresAt: Timestamp, signature: Slice<Byte>)

  function CoerceCap(c: GoCap): CapabilityToken {
    CapabilityToken(Coerce(c.id), Coerce(c.sigilId), Coerce(c.scope), c.issuedAt, c.expiresAt, c.nonce)
  }

  function CoerceCaps(caps: seq<GoCap>): seq<CapabilityToken> {
    seq(|caps|, i requires 0 <= i < |caps| => CoerceCap(caps[i]))
  }

  function CoerceEnvelope(e: GoEnvelope): Envelope {
    Envelope(Coerce(e.version), Coerce(e.sigilId),
             match e.caps case NilSlice => NilSlice case Of(items) => Of(CoerceCaps(items)),
             Coerce(e.issuer), e.issuedAt, e.expiresAt, e.signature)
  }

  /** The envelope with its strings as the bytes that Go holds. */
  function InBytes(e: Envelope): GoEnvelope {
    GoEnvelope(version := Encode(e.version), sigilId := Encode(e.sigilId), issuer := Encode(e.issuer),
               caps := match e.caps case NilSlice => NilSlice case Of(items) => Of(CapsInBytes(items)),
               issuedAt := e.issuedAt, expiresAt := e.expiresAt, signature := e.signature)
  }

  function CapsInBytes(caps: seq<CapabilityToken>): seq<GoCap> {
    seq(|caps|, i requires 0 <= i < |caps| =>
      GoCap(id := Encode(caps[i].id), sigilId := Encode(caps[i].sigilId), scope := Encode(caps[i].scope),
            issuedAt := caps[i].issuedAt, expiresAt := caps[i].expiresAt, nonce := caps[i].nonce))
  }

  /** An envelope of valid strings comes through unchanged, field by field. */
  lemma ValidComesThrough(e: Envelope)
    ensures CoerceEnvelope(InBytes(e)) == e
  {
    CoerceValid(e.version);
    CoerceValid(e.sigilId);
    CoerceValid(e.issuer);
    if e.caps.Of? {
      var caps := e.caps.elements;
      forall i | 0 <= i < |caps| ensures CoerceCaps(CapsInBytes(caps))[i] == caps[i] {
        CoerceValid(caps[i].id);
        CoerceValid(caps[i].sigilId);
        CoerceValid(caps[i].scope);
      }
      assert CoerceCaps(CapsInBytes(caps)) == caps;
    }
  }

  /** Valid UTF-8 without U+FFFD. */
  predicate Plain(b: Bytes) {
    Decode(b).Some? && '\U{FFFD}' !in Decode(b).value
  }

  predicate PlainCap(c: GoCap) {
    Plain(c.id) && Plain(c.sigilId) && Plain(c.scope)
  }

  predicate PlainEnvelope(e: GoEnvelope) {
    && Plain(e.version) && Plain(e.sigilId) && Plain(e.issuer)
    && forall i :: 0 <= i < |e.caps.Items()| ==> PlainCap(e.caps.Items()[i])
  }

  lemma PlainIsOnly(b: Bytes, d: Bytes)
    requires Plain(b) && Coerce(d) == Coerce(b)
    ensures d == b
  {
    ValidCoerces(b);
    SameText(b, d);
  }

  lemma OtherTwin(b: Bytes) returns (d: Bytes)
    requires !Plain(b)
    ensures d != b && Coerce(d) == Coerce(b)
  {
    ValidCoerces(b);
    d := Twin(b);
  }

  lemma PlainCapIsOnly(c: GoCap, d: GoCap)
    requires PlainCap(c) && CoerceCap(d) == CoerceCap(c)
    ensures d == c
  {
    PlainIsOnly(c.id, d.id);
    PlainIsOnly(c.sigilId, d.sigilId);
    PlainIsOnly(c.scope, d.scope);
  }

  lemma OtherCap(c: GoCap) returns (d: GoCap)
    requires !PlainCap(c)
    ensures d != c && CoerceCap(d) == CoerceCap(c)
  {
    if !Plain(c.id) {
      var b := OtherTwin(c.id);
      d := c.(id := b);
    } else if !Plain(c.sigilId) {
      var b := OtherTwin(c.sigilId);
      d := c.(sigilId := b);
    } else {
      var b := OtherTwin(c.scope);
      d := c.(scope := b);
    }
  }

  lemma PlainCapsAreOnly(cs: seq<GoCap>, ds: seq<GoCap>)
    requires (forall i :: 0 <= i < |cs| ==> PlainCap(cs[i])) && CoerceCaps(ds) == CoerceCaps(cs)
    ensures ds == cs
  {
    assert |ds| == |CoerceCaps(ds)| == |cs|;
    forall i | 0 <= i < |cs| ensures ds[i] == cs[i] {
      assert CoerceCaps(ds)[i] == CoerceCaps(cs)[i];
      PlainCapIsOnly(cs[i], ds[i]);
    }
  }

  lemma PlainEnvelopeIsOnly(e: GoEnvelope, f: GoEnvelope)
    requires PlainEnvelope(e) && CoerceEnvelope(f) == CoerceEnvelope(e).(signature := f.signature)
    ensures f == e.(signature := f.signature)
  {
    PlainIsOnly(e.version, f.version);
    PlainIsOnly(e.sigilId, f.sigilId);
    PlainIsOnly(e.issuer, f.issuer);
    assert CoerceEnvelope(f).caps == CoerceEnvelope(e).caps;
    if e.caps.Of? {
      assert f.caps.Of? && Of(CoerceCaps(f.caps.elements)) == Of(CoerceCaps(e.caps.elements));
      var cs := e.caps.elements;
      forall i | 0 <= i < |cs| ensures PlainCap(cs[i]) {
        assert PlainCap(e.caps.Items()[i]);
      }
      PlainCapsAreOnly(cs, f.caps.elements);
    }
  }

  lemma OtherCaps(cs: seq<GoCap>, i: nat) returns (ds: seq<GoCap>)
    requires i < |cs| && !PlainCap(cs[i])
    ensures ds != cs && CoerceCaps(ds) == CoerceCaps(cs)
  {
    var d := OtherCap(cs[i]);
    ds := cs[i := d];
    assert ds[i] != cs[i];
  }

  lemma OtherEnvelope(e: GoEnvelope) returns (f: GoEnvelope)
    requires !PlainEnvelope(e)
    ensures f != e && f.signature == e.signature && CoerceEnvelope(f) == CoerceEnvelope(e)
  {
    if !Plain(e.version) {
      var b := OtherTwin(e.version);
      f := e.(version := b);
    } else if !Plain(e.sigilId) {
      var b := OtherTwin(e.sigilId);
      f := e.(sigilId := b);
    } else if !Plain(e.issuer) {
      var b := OtherTwin(e.issuer);
      f := e.(issuer := b);
    } else {
      var i :| 0 <= i < |e.caps.Items()| && !PlainCap(e.caps.Items()[i]);
      var ds := OtherCaps(e.caps.elements, i);
      f := e.(caps := Of(ds));
    }
  }

  /** Equal bytes mean envelopes that are equal up to the signature. */
  ghost predicate Binds(signed: Envelope -> Option<Bytes>) {
    forall x, y :: signed(x).Some? && signed(x) == signed(y) ==> y == x.(signature := y.signature)
  }

  lemma BindsExactlyFor(signed: Envelope -> Option<Bytes>, e: GoEnvelope)
    requires Binds(signed) && signed(CoerceEnvelope(e)).Some?
    ensures (forall f :: signed(CoerceEnvelope(f)) == signed(CoerceEnvelope(e)) ==> f == e.(signature := f.signature)) <==>
            PlainEnvelope(e)
  {
    if PlainEnvelope(e) {
      forall f | signed(CoerceEnvelope(f)) == signed(CoerceEnvelope(e)) ensures f == e.(signature := f.signature) {
        PlainEnvelopeIsOnly(e, f);
      }
    } else {
      var f := OtherEnvelope(e);
      assert f != e.(signature := f.signature);
    }
  }

  /**
   The signed bytes of an envelope determine everything but the signature, byte
   for byte, if and only if all its strings are valid UTF-8 without U+FFFD.
   */
  lemma SignedBytesBindExactly(e: GoEnvelope)
    requires SignedBytes(CoerceEnvelope(e)).Some?
    ensures (forall f :: SignedBytes(CoerceEnvelope(f)) == SignedBytes(CoerceEnvelope(e)) ==>
               f == e.(signature := f.signature)) <==>
            PlainEnvelope(e)
  {
    var signed := (x: Envelope) => SignedBytes(x);
    forall x, y | signed(x).Some? && signed(x) == signed(y) ensures y == x.(signature := y.signature) {
      SignedBytesBind(x, y);
    }
    BindsExactlyFor(signed, e);
  }
}
