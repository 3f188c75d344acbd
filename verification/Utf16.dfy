/** UTF-16 as in RFC 2781, and where the order of its code units departs from that of code points. */
module Utf16 {
  import opened Utf8

  /** One unit below U+10000, a surrogate pair above. */
  function Units(c: char): seq<int> {
    var n := c as int;
    if n < 0x10000 then [n] else [0xD800 + (n - 0x10000) / 0x400, 0xDC00 + (n - 0x10000) % 0x400]
  }

  /** Section 2.1 of RFC 2781: the units of a pair lie in the two surrogate ranges and carry ten bits each. */
  lemma UnitsMeaning(c: char)
    ensures var n, u := c as int, Units(c);
            if n < 0x10000 then u == [n]
            else && |u| == 2 && 0xD800 <= u[0] < 0xDC00 <= u[1] < 0xE000
                 && n == 0x10000 + (u[0] - 0xD800) * 0x400 + (u[1] - 0xDC00)
  {
  }

  function Encode16(s: string): seq<int> {
    if s == "" then [] else Units(s[0]) + Encode16(s[1..])
  }

  predicate UnitsLess(a: seq<int>, b: seq<int>) {
    b != [] && (a == [] || a[0] < b[0] || (a[0] == b[0] && UnitsLess(a[1..], b[1..])))
  }

  /** The order of section 3.2.3 of RFC 8785. */
  predicate Utf16Less(s: string, t: string) {
    UnitsLess(Encode16(s), Encode16(t))
  }

  // ----- The same order, character by character -----

  /** What lies above the surrogates in the basic plane comes after everything else. */
  function Rank(c: char): (r: int)
    ensures 0 <= r
  {
    var n := c as int;
    if 0xE000 <= n < 0x10000 then n + 0x110000 else n
  }

  predicate RankLess(s: string, t: string) {
    t != "" && (s == "" || Rank(s[0]) < Rank(t[0]) || (s[0] == t[0] && RankLess(s[1..], t[1..])))
  }

  lemma RankInjective(c: char, d: char)
    requires Rank(c) == Rank(d)
    ensures c == d
  {
  }

  lemma {:induction false} CommonUnits(p: seq<int>, a: seq<int>, b: seq<int>)
    ensures UnitsLess(p + a, p + b) <==> UnitsLess(a, b)
  {
    if p == [] {
      assert p + a == a && p + b == b;
    } else {
      CommonUnits(p[1..], a, b);
      assert (p + a)[1..] == p[1..] + a && (p + b)[1..] == p[1..] + b;
    }
  }

  lemma FirstUnit(x: seq<int>, y: seq<int>, a: seq<int>, b: seq<int>)
    requires x != [] && y != [] && x[0] < y[0]
    ensures UnitsLess(x + a, y + b)
  {
  }

  lemma SecondUnit(h: int, m: int, n: int, a: seq<int>, b: seq<int>)
    requires m < n
    ensures UnitsLess([h, m] + a, [h, n] + b)
  {
    CommonUnits([h], [m] + a, [n] + b);
    FirstUnit([m], [n], a, b);
    assert [h, m] + a == [h] + ([m] + a) && [h, n] + b == [h] + ([n] + b);
  }

  lemma HighSurrogates(m: int, n: int)
    requires 0 <= m < n
    ensures m / 0x400 < n / 0x400 || (m / 0x400 == n / 0x400 && m % 0x400 < n % 0x400)
  {
  }

  lemma PairOrder(c: char, d: char, a: seq<int>, b: seq<int>)
    requires 0x10000 <= c as int < d as int
    ensures UnitsLess(Units(c) + a, Units(d) + b)
  {
    var m, n := c as int - 0x10000, d as int - 0x10000;
    HighSurrogates(m, n);
    if m / 0x400 < n / 0x400 {
      FirstUnit(Units(c), Units(d), a, b);
    } else {
      SecondUnit(0xD800 + m / 0x400, 0xDC00 + m % 0x400, 0xDC00 + n % 0x400, a, b);
    }
  }

  lemma UnitOrder(c: char, d: char, a: seq<int>, b: seq<int>)
    requires Rank(c) < Rank(d)
    ensures UnitsLess(Units(c) + a, Units(d) + b)
  {
    if 0x10000 <= c as int && 0x10000 <= d as int {
      PairOrder(c, d, a, b);
    } else {
      FirstUnit(Units(c), Units(d), a, b);
    }
  }

  lemma {:induction false} RankedUnits(s: string, t: string)
    requires RankLess(s, t)
    ensures Utf16Less(s, t)
  {
    if s != "" {
      if Rank(s[0]) < Rank(t[0]) {
        UnitOrder(s[0], t[0], Encode16(s[1..]), Encode16(t[1..]));
      } else {
        RankedUnits(s[1..], t[1..]);
        CommonUnits(Units(s[0]), Encode16(s[1..]), Encode16(t[1..]));
      }
    }
  }

  lemma {:induction false} UnitsLessAsymmetric(a: seq<int>, b: seq<int>)
    requires UnitsLess(a, b)
    ensures !UnitsLess(b, a)
  {
    if a != [] && a[0] == b[0] {
      UnitsLessAsymmetric(a[1..], b[1..]);
    }
  }

  lemma {:induction false} RankTrichotomy(s: string, t: string)
    ensures RankLess(s, t) || s == t || RankLess(t, s)
  {
    if s != "" && t != "" {
      if s[0] == t[0] {
        RankTrichotomy(s[1..], t[1..]);
        assert s == [s[0]] + s[1..] && t == [t[0]] + t[1..];
      } else if Rank(s[0]) == Rank(t[0]) {
        RankInjective(s[0], t[0]);
      }
    }
  }

  lemma Utf16IsRank(s: string, t: string)
    ensures Utf16Less(s, t) <==> RankLess(s, t)
  {
    RankTrichotomy(s, t);
    if RankLess(s, t) {
      RankedUnits(s, t);
    }
    if Utf16Less(s, t) {
      UnitsLessAsymmetric(Encode16(s), Encode16(t));
      if RankLess(t, s) {
        RankedUnits(t, s);
      }
    }
  }

  // ----- A strict total order -----

  lemma {:induction false} UnitsLessTransitive(a: seq<int>, b: seq<int>, c: seq<int>)
    requires UnitsLess(a, b) && UnitsLess(b, c)
    ensures UnitsLess(a, c)
  {
    if a != [] && a[0] == b[0] == c[0] {
      UnitsLessTransitive(a[1..], b[1..], c[1..]);
    }
  }

  lemma Utf16Trichotomy(s: string, t: string)
    ensures Utf16Less(s, t) || s == t || Utf16Less(t, s)
  {
    RankTrichotomy(s, t);
    Utf16IsRank(s, t);
    Utf16IsRank(t, s);
  }

  lemma Utf16Irreflexive(s: string)
    ensures !Utf16Less(s, s)
  {
    if Utf16Less(s, s) {
      UnitsLessAsymmetric(Encode16(s), Encode16(s));
    }
  }

  // ----- Against code point order -----

  /** At their first difference s has a character from U+E000 on in the basic plane and t one beyond it. */
  predicate SwappedAt(s: string, t: string, i: nat) {
    && i < |s| && i < |t| && s[..i] == t[..i]
    && 0xE000 <= s[i] as int < 0x10000 <= t[i] as int
  }

  ghost predicate Swapped(s: string, t: string) {
    exists i: nat :: SwappedAt(s, t, i)
  }

  lemma SwappedNext(s: string, t: string)
    requires s != "" && t != "" && s[0] == t[0]
    ensures Swapped(s, t) <==> Swapped(s[1..], t[1..])
  {
    if i: nat :| SwappedAt(s, t, i) {
      assert s[1..][..i - 1] == s[..i][1..] && t[1..][..i - 1] == t[..i][1..];
      assert SwappedAt(s[1..], t[1..], i - 1);
    }
    if i: nat :| SwappedAt(s[1..], t[1..], i) {
      assert s[..i + 1] == [s[0]] + s[1..][..i] && t[..i + 1] == [t[0]] + t[1..][..i];
      assert SwappedAt(s, t, i + 1);
    }
  }

  lemma SameStart(s: string, t: string, i: nat)
    requires SwappedAt(s, t, i) && i > 0
    ensures s[0] == t[0]
  {
    assert s[..i][0] == t[..i][0];
  }

  lemma SwappedFirst(s: string, t: string)
    requires s != "" && t != "" && s[0] != t[0]
    ensures Swapped(s, t) <==> 0xE000 <= s[0] as int < 0x10000 <= t[0] as int
  {
    forall i: nat | SwappedAt(s, t, i) ensures i == 0 {
      if i > 0 {
        SameStart(s, t, i);
      }
    }
    assert s[..0] == t[..0];
    assert 0xE000 <= s[0] as int < 0x10000 <= t[0] as int ==> SwappedAt(s, t, 0);
  }

  lemma SwappedIsLess(s: string, t: string, i: nat)
    requires SwappedAt(s, t, i)
    ensures CodePointLess(s, t)
    decreases i
  {
    if i > 0 {
      SameStart(s, t, i);
      assert s[1..][..i - 1] == s[..i][1..] && t[1..][..i - 1] == t[..i][1..];
      SwappedIsLess(s[1..], t[1..], i - 1);
    }
  }

  lemma {:induction false} RanksAgree(s: string, t: string)
    requires CodePointLess(s, t)
    ensures RankLess(s, t) <==> !Swapped(s, t)
  {
    if s != "" {
      if s[0] == t[0] {
        RanksAgree(s[1..], t[1..]);
        SwappedNext(s, t);
      } else {
        SwappedFirst(s, t);
      }
    }
  }

  /** Two strings in code point order are in UTF-16 order too if and only if they are not swapped. */
  lemma OrdersAgree(s: string, t: string)
    requires CodePointLess(s, t)
    ensures Utf16Less(s, t) <==> !Swapped(s, t)
  {
    RanksAgree(s, t);
    Utf16IsRank(s, t);
  }

  /** U+FFFF comes before U+10000 as a code point and after it in UTF-16. */
  lemma OrdersDiffer(s: string, t: string)
    requires s == [0xFFFF as char] && t == [0x10000 as char]
    ensures CodePointLess(s, t) && Utf16Less(t, s)
  {
    Utf16IsRank(t, s);
  }
}
