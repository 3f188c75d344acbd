/** UTF-8 as in RFC 3629: encoding, strict decoding, and the order that comparing encoded bytes induces. */
module Utf8 {
  import opened Protocol

  function EncodeChar(c: char): Bytes {
    var n := c as int;
    if n < 0x80 then [n]
    else if n < 0x800 then [0xC0 + n / 0x40, 0x80 + n % 0x40]
    else
      var m := n / 0x40;
      if n < 0x10000 then [0xE0 + m / 0x40, 0x80 + m % 0x40, 0x80 + n % 0x40]
      else
        var l := m / 0x40;
        [0xF0 + l / 0x40, 0x80 + l % 0x40, 0x80 + m % 0x40, 0x80 + n % 0x40]
  }

  function Encode(s: string): Bytes {
    if s == "" then [] else EncodeChar(s[0]) + Encode(s[1..])
  }

  lemma Associative(a: Bytes, b: Bytes, c: Bytes)
    ensures a + (b + c) == a + b + c
  {
  }

  lemma {:induction false} EncodeConcat(s: string, t: string)
    ensures Encode(s + t) == Encode(s) + Encode(t)
  {
    if s == "" {
      assert s + t == t;
    } else {
      EncodeConcat(s[1..], t);
      assert (s + t)[1..] == s[1..] + t;
      Associative(EncodeChar(s[0]), Encode(s[1..]), Encode(t));
    }
  }

  /** How Go compares strings: byte by byte, a proper prefix first. */
  predicate BytesLess(a: Bytes, b: Bytes) {
    b != [] && (a == [] || a[0] < b[0] || (a[0] == b[0] && BytesLess(a[1..], b[1..])))
  }

  /** Unicode code point order. */
  predicate CodePointLess(s: string, t: string) {
    t != "" && (s == "" || s[0] < t[0] || (s[0] == t[0] && CodePointLess(s[1..], t[1..])))
  }

  lemma {:induction false} CommonPrefix(p: Bytes, a: Bytes, b: Bytes)
    ensures BytesLess(p + a, p + b) <==> BytesLess(a, b)
  {
    if p == [] {
      assert p + a == a && p + b == b;
    } else {
      CommonPrefix(p[1..], a, b);
      assert (p + a)[1..] == p[1..] + a && (p + b)[1..] == p[1..] + b;
    }
  }

  /** The first byte at which two sequences differ decides. */
  lemma {:induction false} DecidedAt(a: Bytes, b: Bytes, i: nat)
    requires i < |a| && i < |b| && a[..i] == b[..i] && a[i] < b[i]
    ensures BytesLess(a, b)
  {
    if i > 0 {
      assert a[..i][0] == a[0] && b[..i][0] == b[0];
      assert a[1..][..i - 1] == a[..i][1..] && b[1..][..i - 1] == b[..i][1..];
      DecidedAt(a[1..], b[1..], i - 1);
    }
  }

  /** Base-64 digits compare like the numbers. */
  lemma DigitOrder(m: nat, n: nat)
    ensures m < n ==> m / 0x40 < n / 0x40 || (m / 0x40 == n / 0x40 && m % 0x40 < n % 0x40)
  {
  }

  /** Position i is the first at which two sequences differ, and the first one is smaller there. */
  ghost predicate SmallerAt(x: Bytes, y: Bytes, i: nat) {
    i < |x| && i < |y| && x[i] < y[i] && forall j :: 0 <= j < i ==> x[j] == y[j]
  }

  /** The lead byte tells the length, longer encodings having larger ones. */
  lemma LeadByte(c: char, d: char)
    requires c < d && |EncodeChar(c)| != |EncodeChar(d)|
    ensures EncodeChar(c)[0] < EncodeChar(d)[0]
  {
  }

  lemma Differ2(c: char, d: char) returns (i: nat)
    requires c < d && |EncodeChar(c)| == |EncodeChar(d)| <= 2
    ensures SmallerAt(EncodeChar(c), EncodeChar(d), i)
  {
    DigitOrder(c as int, d as int);
    i := if |EncodeChar(c)| == 1 || c as int / 0x40 < d as int / 0x40 then 0 else 1;
  }

  lemma Differ3(c: char, d: char) returns (i: nat)
    requires c < d && |EncodeChar(c)| == |EncodeChar(d)| == 3
    ensures SmallerAt(EncodeChar(c), EncodeChar(d), i)
  {
    var m, n := c as int / 0x40, d as int / 0x40;
    DigitOrder(c as int, d as int);
    DigitOrder(m, n);
    i := if m / 0x40 < n / 0x40 then 0 else if m < n then 1 else 2;
  }

  lemma Differ4(c: char, d: char) returns (i: nat)
    requires c < d && |EncodeChar(c)| == |EncodeChar(d)| == 4
    ensures SmallerAt(EncodeChar(c), EncodeChar(d), i)
  {
    var m, n := c as int / 0x40, d as int / 0x40;
    var k, l := m / 0x40, n / 0x40;
    DigitOrder(c as int, d as int);
    DigitOrder(m, n);
    DigitOrder(k, l);
    i := if k / 0x40 < l / 0x40 then 0 else if k < l then 1 else if m < n then 2 else 3;
  }

  lemma EncodedLength(c: char)
    ensures 1 <= |EncodeChar(c)| <= 4
  {
  }

  /** The position at which the encodings of two code points first differ. */
  lemma FirstDifference(c: char, d: char) returns (i: nat)
    requires c < d
    ensures SmallerAt(EncodeChar(c), EncodeChar(d), i)
  {
    EncodedLength(c);
    EncodedLength(d);
    if |EncodeChar(c)| != |EncodeChar(d)| {
      LeadByte(c, d);
      i := 0;
    } else if |EncodeChar(c)| <= 2 {
      i := Differ2(c, d);
    } else if |EncodeChar(c)| == 3 {
      i := Differ3(c, d);
    } else {
      i := Differ4(c, d);
    }
  }

  lemma SmallerFirst(x: Bytes, y: Bytes, i: nat, a: Bytes, b: Bytes)
    requires SmallerAt(x, y, i)
    ensures BytesLess(x + a, y + b)
  {
    assert (x + a)[..i] == (y + b)[..i];
    DecidedAt(x + a, y + b, i);
  }

  /** Whatever follows, the encoding of a smaller code point is the smaller byte sequence. */
  lemma CharOrder(c: char, d: char, a: Bytes, b: Bytes)
    requires c < d
    ensures BytesLess(EncodeChar(c) + a, EncodeChar(d) + b)
  {
    var i := FirstDifference(c, d);
    SmallerFirst(EncodeChar(c), EncodeChar(d), i, a, b);
  }

  lemma {:induction false} LessImpliesBytesLess(s: string, t: string)
    requires CodePointLess(s, t)
    ensures BytesLess(Encode(s), Encode(t))
  {
    if s != "" {
      if s[0] < t[0] {
        CharOrder(s[0], t[0], Encode(s[1..]), Encode(t[1..]));
      } else {
        LessImpliesBytesLess(s[1..], t[1..]);
        CommonPrefix(EncodeChar(s[0]), Encode(s[1..]), Encode(t[1..]));
      }
    }
  }

  lemma {:induction false} CodePointTrichotomy(s: string, t: string)
    ensures CodePointLess(s, t) || s == t || CodePointLess(t, s)
  {
    if s != "" && t != "" && s[0] == t[0] {
      CodePointTrichotomy(s[1..], t[1..]);
      assert s == [s[0]] + s[1..] && t == [t[0]] + t[1..];
    }
  }

  lemma {:induction false} BytesLessAsymmetric(a: Bytes, b: Bytes)
    requires BytesLess(a, b)
    ensures !BytesLess(b, a)
  {
    if a != [] && a[0] == b[0] {
      BytesLessAsymmetric(a[1..], b[1..]);
    }
  }

  /** Sorting by UTF-8 bytes is sorting by code points. */
  lemma ByteOrderIsCodePointOrder(s: string, t: string)
    ensures BytesLess(Encode(s), Encode(t)) <==> CodePointLess(s, t)
  {
    CodePointTrichotomy(s, t);
    if CodePointLess(s, t) {
      LessImpliesBytesLess(s, t);
    }
    if BytesLess(Encode(s), Encode(t)) {
      BytesLessAsymmetric(Encode(s), Encode(t));
      if CodePointLess(t, s) {
        LessImpliesBytesLess(t, s);
      }
    }
  }

  /** The value whose low six bits are those of a continuation byte; -1 when it is none. */
  function Shift(high: int, b: Byte): int {
    if high < 0 || b < 0x80 || b >= 0xC0 then -1 else high * 0x40 + (b - 0x80) as int
  }

  /** The code point that a well-formed prefix encodes and how many bytes it takes; None for ill-formed input. */
  function DecodeChar(b: Bytes): (r: Option<(char, nat)>)
    requires b != []
    ensures r.Some? ==> 0 < r.value.1 <= |b|
  {
    if b[0] < 0x80 then Some((b[0] as char, 1))
    else if 0xC0 <= b[0] < 0xE0 && |b| >= 2 then
      var n := Shift(b[0] - 0xC0, b[1]);
      if 0x80 <= n < 0x800 then Some((n as char, 2)) else None
    else if 0xE0 <= b[0] < 0xF0 && |b| >= 3 then
      var n := Shift(Shift(b[0] - 0xE0, b[1]), b[2]);
      if 0x800 <= n < 0xD800 || 0xE000 <= n < 0x10000 then Some((n as char, 3)) else None
    else if 0xF0 <= b[0] < 0xF8 && |b| >= 4 then
      var n := Shift(Shift(Shift(b[0] - 0xF0, b[1]), b[2]), b[3]);
      if 0x10000 <= n < 0x110000 then Some((n as char, 4)) else None
    else None
  }

  function Decode(b: Bytes): Option<string> {
    if b == [] then Some("") else
    match DecodeChar(b)
    case None => None
    case Some((c, n)) =>
      match Decode(b[n..])
      case None => None
      case Some(s) => Some([c] + s)
  }

  lemma DecodeEncodeChar(c: char, rest: Bytes)
    ensures DecodeChar(EncodeChar(c) + rest) == Some((c, |EncodeChar(c)|))
  {
    var n := c as int;
    var m := n / 0x40;
    var l := m / 0x40;
    assert Shift(m, 0x80 + n % 0x40) == n;
    assert Shift(l, 0x80 + m % 0x40) == m;
    assert Shift(l / 0x40, 0x80 + l % 0x40) == l;
    var b := EncodeChar(c) + rest;
    assert forall i :: 0 <= i < |EncodeChar(c)| ==> b[i] == EncodeChar(c)[i];
  }

  lemma DecodeCons(e: Bytes, rest: Bytes, c: char, s: string)
    requires e != [] && DecodeChar(e + rest) == Some((c, |e|)) && Decode(rest) == Some(s)
    ensures Decode(e + rest) == Some([c] + s)
  {
    assert (e + rest)[|e|..] == rest;
  }

  lemma {:induction false} DecodeEncode(s: string)
    ensures Decode(Encode(s)) == Some(s)
  {
    if s != "" {
      DecodeEncodeChar(s[0], Encode(s[1..]));
      DecodeEncode(s[1..]);
      EncodedLength(s[0]);
      DecodeCons(EncodeChar(s[0]), Encode(s[1..]), s[0], s[1..]);
      assert s == [s[0]] + s[1..];
    }
  }

  predicate Continues(b: Byte) {
    0x80 <= b < 0xC0
  }

  /** The forms of section 3 of RFC 3629: as many bytes as the character needs, six bits in each but the first. */
  lemma EncodingForms(c: char)
    ensures var n, b := c as int, EncodeChar(c);
            if n < 0x80 then |b| == 1 && b[0] == n
            else if n < 0x800 then
              && |b| == 2 && 0xC0 <= b[0] < 0xE0 && Continues(b[1])
              && n == (b[0] as int - 0xC0) * 0x40 + (b[1] as int - 0x80)
            else if n < 0x10000 then
              && |b| == 3 && 0xE0 <= b[0] < 0xF0 && Continues(b[1]) && Continues(b[2])
              && n == (b[0] as int - 0xE0) * 0x1000 + (b[1] as int - 0x80) * 0x40 + (b[2] as int - 0x80)
            else
              && |b| == 4 && 0xF0 <= b[0] < 0xF8 && Continues(b[1]) && Continues(b[2]) && Continues(b[3])
              && n == (b[0] as int - 0xF0) * 0x40000 + (b[1] as int - 0x80) * 0x1000 +
                      (b[2] as int - 0x80) * 0x40 + (b[3] as int - 0x80)
  {
    var n := c as int;
    var m := n / 0x40;
    var l := m / 0x40;
    assert n == m * 0x40 + n % 0x40 && m == l * 0x40 + m % 0x40 && l == l / 0x40 * 0x40 + l % 0x40;
  }
}
