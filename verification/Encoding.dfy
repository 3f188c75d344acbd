/** Byte-to-text encodings: lower-case hexadecimal and standard base64 with padding. */
module Encoding {
  import opened Protocol

  function HexDigit(d: int): (c: char)
    requires 0 <= d < 16
    ensures HexValue(c) == d
  {
    if d < 10 then ('0' as int + d) as char else ('a' as int + d - 10) as char
  }

  /** The inverse of HexDigit, -1 for a character that is no lower-case hex digit. */
  function HexValue(c: char): int {
    if '0' <= c <= '9' then c as int - '0' as int
    else if 'a' <= c <= 'f' then c as int - 'a' as int + 10
    else -1
  }

  function HexEncode(b: Bytes): string {
    if b == [] then "" else [HexDigit(b[0] / 16), HexDigit(b[0] % 16)] + HexEncode(b[1..])
  }

  lemma {:induction false} HexEncodeInjective(a: Bytes, b: Bytes)
    requires HexEncode(a) == HexEncode(b)
    ensures a == b
  {
    if a == [] || b == [] {
      assert a == [] && b == [];
    } else {
      var s, t := HexEncode(a), HexEncode(b);
      assert HexValue(s[0]) == a[0] / 16 && HexValue(s[1]) == a[0] % 16;
      assert HexValue(t[0]) == b[0] / 16 && HexValue(t[1]) == b[0] % 16;
      assert s[2..] == HexEncode(a[1..]) && t[2..] == HexEncode(b[1..]);
      HexEncodeInjective(a[1..], b[1..]);
      assert a == [a[0]] + a[1..] && b == [b[0]] + b[1..];
    }
  }

  // ----- Base64 (section 4 of RFC 4648) -----

  function Base64Char(v: int): (c: char)
    requires 0 <= v < 64
    ensures Base64Value(c) == v && c != '='
  {
    if v < 26 then ('A' as int + v) as char
    else if v < 52 then ('a' as int + v - 26) as char
    else if v < 62 then ('0' as int + v - 52) as char
    else if v == 62 then '+' else '/'
  }

  function Base64Value(c: char): int {
    if 'A' <= c <= 'Z' then c as int - 'A' as int
    else if 'a' <= c <= 'z' then c as int - 'a' as int + 26
    else if '0' <= c <= '9' then c as int - '0' as int + 52
    else if c == '+' then 62 else if c == '/' then 63 else -1
  }

  function Base64Group3(a: Byte, b: Byte, c: Byte): string {
    [Base64Char(a / 4), Base64Char(a % 4 * 16 + b / 16), Base64Char(b % 16 * 4 + c / 64), Base64Char(c % 64)]
  }

  function Base64(b: Bytes): string {
    if b == [] then ""
    else if |b| == 1 then [Base64Char(b[0] / 4), Base64Char(b[0] % 4 * 16), '=', '=']
    else if |b| == 2 then
      [Base64Char(b[0] / 4), Base64Char(b[0] % 4 * 16 + b[1] / 16), Base64Char(b[1] % 16 * 4), '=']
    else
      Base64Group3(b[0], b[1], b[2]) + Base64(b[3..])
  }

  /** The bytes of one group of four characters. */
  function Base64Group(s: string): Option<Bytes>
    requires |s| == 4
  {
    var p, q, r, t := Base64Value(s[0]), Base64Value(s[1]), Base64Value(s[2]), Base64Value(s[3]);
    if p < 0 || q < 0 then None
    else if s[2] == '=' && s[3] == '=' then Some([p * 4 + q / 16])
    else if r < 0 then None
    else if s[3] == '=' then Some([p * 4 + q / 16, q % 16 * 16 + r / 4])
    else if t < 0 then None
    else Some([p * 4 + q / 16, q % 16 * 16 + r / 4, r % 4 * 64 + t])
  }

  function FromBase64(s: string): Option<Bytes> {
    if s == "" then Some([])
    else if |s| < 4 then None
    else
      match (Base64Group(s[..4]), FromBase64(s[4..]))
      case (Some(b), Some(rest)) => if |b| < 3 && rest != [] then None else Some(b + rest)
      case _ => None
  }

  lemma Base64Triple(a: Byte, b: Byte, c: Byte)
    ensures Base64Group(Base64Group3(a, b, c)) == Some([a, b, c])
  {
    assert (a % 4 * 16 + b / 16) / 16 == a % 4 && (a % 4 * 16 + b / 16) % 16 == b / 16;
    assert (b % 16 * 4 + c / 64) / 4 == b % 16 && (b % 16 * 4 + c / 64) % 4 == c / 64;
  }

  lemma Base64Pair(a: Byte, b: Byte)
    ensures Base64Group([Base64Char(a / 4), Base64Char(a % 4 * 16 + b / 16), Base64Char(b % 16 * 4), '=']) == Some([a, b])
  {
    assert (a % 4 * 16 + b / 16) / 16 == a % 4 && (a % 4 * 16 + b / 16) % 16 == b / 16;
    assert (b % 16 * 4) / 4 == b % 16;
  }

  lemma Base64Single(a: Byte)
    ensures Base64Group([Base64Char(a / 4), Base64Char(a % 4 * 16), '=', '=']) == Some([a])
  {
    assert (a % 4 * 16) / 16 == a % 4;
  }

  /** Decoding a group and what follows it. */
  lemma Base64Cons(g: string, rest: string, b: Bytes, bs: Bytes)
    requires |g| == 4 && Base64Group(g) == Some(b) && FromBase64(rest) == Some(bs) && (|b| < 3 ==> bs == [])
    ensures FromBase64(g + rest) == Some(b + bs)
  {
    assert (g + rest)[..4] == g && (g + rest)[4..] == rest;
  }

  lemma NextGroup(a: Byte, b: Byte, c: Byte, rest: string, bs: Bytes)
    requires FromBase64(rest) == Some(bs)
    ensures FromBase64(Base64Group3(a, b, c) + rest) == Some([a, b, c] + bs)
  {
    Base64Triple(a, b, c);
    Base64Cons(Base64Group3(a, b, c), rest, [a, b, c], bs);
  }

  lemma LastGroup(g: string, b: Bytes)
    requires |g| == 4 && Base64Group(g) == Some(b)
    ensures FromBase64(g) == Some(b)
  {
    Base64Cons(g, "", b, []);
    assert g + "" == g && b + [] == b;
  }

  lemma {:induction false} Base64RoundTrip(b: Bytes)
    ensures FromBase64(Base64(b)) == Some(b)
  {
    if |b| == 1 {
      Base64Single(b[0]);
      LastGroup(Base64(b), [b[0]]);
      assert b == [b[0]];
    } else if |b| == 2 {
      Base64Pair(b[0], b[1]);
      LastGroup(Base64(b), [b[0], b[1]]);
      assert b == [b[0], b[1]];
    } else if |b| > 2 {
      Base64RoundTrip(b[3..]);
      NextGroup(b[0], b[1], b[2], Base64(b[3..]), b[3..]);
      assert b == [b[0], b[1], b[2]] + b[3..];
    }
  }

  // ----- The alphabets, and what the characters stand for -----

  lemma HexAlphabet(d: int)
    requires 0 <= d < 16
    ensures HexDigit(d) == "0123456789abcdef"[d]
  {
  }

  /** Two characters for every byte, the high half first. */
  lemma {:induction false} HexMeaning(b: Bytes, i: nat)
    requires i < |b|
    ensures |HexEncode(b)| == 2 * |b|
    ensures 16 * HexValue(HexEncode(b)[2 * i]) + HexValue(HexEncode(b)[2 * i + 1]) == b[i]
  {
    if |b| > 1 {
      HexMeaning(b[1..], if i > 0 then i - 1 else 0);
    }
  }

  lemma UpperCase(v: int)
    requires 0 <= v < 26
    ensures Base64Char(v) == "ABCDEFGHIJKLMNOPQRSTUVWXYZ"[v]
  {
  }

  lemma LowerCase(v: int)
    requires 26 <= v < 52
    ensures Base64Char(v) == "abcdefghijklmnopqrstuvwxyz"[v - 26]
  {
  }

  lemma DigitsAndSigns(v: int)
    requires 52 <= v < 64
    ensures Base64Char(v) == "0123456789+/"[v - 52]
  {
  }

  lemma Base64Alphabet(v: int)
    requires 0 <= v < 64
    ensures Base64Char(v) == ("ABCDEFGHIJKLMNOPQRSTUVWXYZ" + "abcdefghijklmnopqrstuvwxyz" + "0123456789+/")[v]
  {
    if v < 26 {
      UpperCase(v);
    } else if v < 52 {
      LowerCase(v);
    } else {
      DigitsAndSigns(v);
    }
  }

  /** The number that four characters stand for in base 64. */
  function Number64(s: string): int
    requires |s| == 4
  {
    0x40000 * Base64Value(s[0]) + 0x1000 * Base64Value(s[1]) + 0x40 * Base64Value(s[2]) + Base64Value(s[3])
  }

  lemma TripleMeaning(a: int, b: int, c: int)
    requires 0 <= a < 256 && 0 <= b < 256 && 0 <= c < 256
    ensures Number64(Base64Group3(a, b, c)) == 0x10000 * a + 0x100 * b + c
  {
    assert a == a / 4 * 4 + a % 4 && b == b / 16 * 16 + b % 16 && c == c / 64 * 64 + c % 64;
  }

  lemma PadSingle(a: int)
    requires 0 <= a < 256
    ensures 0x40000 * (a / 4) + 0x1000 * (a % 4 * 16) == 0x10000 * a
  {
  }

  lemma PadPair(a: int, b: int)
    requires 0 <= a < 256 && 0 <= b < 256
    ensures 0x40000 * (a / 4) + 0x1000 * (a % 4 * 16 + b / 16) + 0x40 * (b % 16 * 4) == 0x10000 * a + 0x100 * b
  {
  }

  /** What a group of four characters says of the bytes from there on. */
  predicate GroupSays(g: string, rest: Bytes)
    requires |g| == 4 && rest != []
  {
    if |rest| >= 3 then Number64(g) == 0x10000 * (rest[0] as int) + 0x100 * (rest[1] as int) + rest[2] as int
    else if |rest| == 2 then
      g[3] == '=' && Number64(g[..3] + "A") == 0x10000 * (rest[0] as int) + 0x100 * (rest[1] as int)
    else g[2..] == "==" && Number64(g[..2] + "AA") == 0x10000 * (rest[0] as int)
  }

  lemma FirstGroupSays(b: Bytes)
    requires b != []
    ensures |Base64(b)| >= 4 && (|b| <= 3 ==> |Base64(b)| == 4) && GroupSays(Base64(b)[..4], b)
  {
    if |b| >= 3 {
      assert Base64(b)[..4] == Base64Group3(b[0], b[1], b[2]);
      TripleMeaning(b[0], b[1], b[2]);
    } else if |b| == 2 {
      PadPair(b[0], b[1]);
    } else {
      PadSingle(b[0]);
    }
  }

  lemma NextGroupAt(b: Bytes, i: nat)
    requires 0 < i && 3 * i < |b| && 4 * i <= |Base64(b[3..])|
    ensures |Base64(b)| == 4 + |Base64(b[3..])| && b[3..][3 * (i - 1)..] == b[3 * i..]
    ensures Base64(b)[4 * i..4 * i + 4] == Base64(b[3..])[4 * (i - 1)..4 * (i - 1) + 4]
  {
    assert Base64(b) == Base64Group3(b[0], b[1], b[2]) + Base64(b[3..]);
  }

  /**
   Four characters for three bytes, the same number in base 64 and in base 256. A
   last group of one or two bytes is filled up with zero bits, and its characters
   without any bit of the bytes are written as =.
   */
  lemma {:induction false} Base64Meaning(b: Bytes, i: nat)
    requires 3 * i < |b|
    ensures 4 * i + 4 <= |Base64(b)| && (3 * i + 3 >= |b| ==> |Base64(b)| == 4 * i + 4)
    ensures GroupSays(Base64(b)[4 * i..4 * i + 4], b[3 * i..])
  {
    if i > 0 {
      Base64Meaning(b[3..], i - 1);
      NextGroupAt(b, i);
    } else {
      FirstGroupSays(b);
      assert b[0..] == b;
    }
  }
}
