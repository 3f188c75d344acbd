/**
 The text of a timestamp is fixed: of all the texts that read as an instant, the
 one that is signed is the one of Go's form, and the form is stated on characters.
 */
module TimeForms {
  import opened Protocol
  import opened Text
  import opened Json
  import opened GoInt
  import opened Rfc3339

  // ----- The calendar, day by day -----

  /** The date after this one. */
  function NextDate(year: nat, month: nat, day: nat): (nat, nat, nat) {
    var february := if year % 4 == 0 && (year % 100 != 0 || year % 400 == 0) then 29 else 28;
    var last := [31, february, 31, 30, 31, 30, 31, 31, 30, 31, 30, 31];
    if 1 <= month <= 12 && day < last[month - 1] then (year, month, day + 1)
    else if month < 12 then (year, month + 1, 1)
    else (year + 1, 1, 1)
  }

  /** Midnight of the first of January 1970 is 0, every day has 86400 seconds, and the clock counts them from midnight. */
  lemma CalendarMeaning(c: Civil)
    requires Regular(c)
    ensures FromCivil(Civil(1970, 1, 1, 0, 0, 0)) == 0
    ensures var (year, month, day) := NextDate(c.year, c.month, c.day);
            1 <= month <= 12 && FromCivil(c.(year := year, month := month, day := day)) == FromCivil(c) + 86400
    ensures FromCivil(c) == FromCivil(Civil(c.year, c.month, c.day, 0, 0, 0)) + 3600 * c.hour + 60 * c.minute + c.second
  {
    MonthLength(Leap(c.year), c.month);
    YearLength(c.year);
  }

  // ----- A date has one number -----

  lemma {:induction false} YearsAscend(y: nat, z: nat)
    requires y <= z
    ensures DaysBeforeYear(y) <= DaysBeforeYear(z)
  {
    if y < z {
      YearsAscend(y, z - 1);
      YearLength(z - 1);
    }
  }

  lemma {:induction false} MonthsAscend(leap: bool, m: nat, n: nat)
    requires 1 <= m <= n <= 13
    ensures DaysBeforeMonth(leap, m) <= DaysBeforeMonth(leap, n)
  {
    if m < n {
      MonthsAscend(leap, m, n - 1);
      MonthLength(leap, n - 1);
    }
  }

  lemma InMonth(leap: bool, m: nat, d: nat)
    requires 1 <= m <= 12 && 1 <= d <= MonthDays(leap, m)
    ensures DaysBeforeMonth(leap, m) <= DaysBeforeMonth(leap, m) + d - 1 < DaysBeforeMonth(leap, m + 1) <=
            DaysBeforeMonth(leap, 13)
  {
    MonthLength(leap, m);
    MonthsAscend(leap, m + 1, 13);
  }

  lemma InYear(c: Civil)
    requires Regular(c)
    ensures DaysBeforeYear(c.year) <= DayNumber(c.year, c.month, c.day) < DaysBeforeYear(c.year + 1) <= DaysBeforeYear(10000)
  {
    InMonth(Leap(c.year), c.month, c.day);
    YearLength(c.year);
    YearsAscend(c.year + 1, 10000);
  }

  lemma DayUnique(leap: bool, m: nat, d: nat, n: nat, e: nat)
    requires 1 <= m <= n <= 12 && 1 <= d <= MonthDays(leap, m) && 1 <= e <= MonthDays(leap, n)
    requires DaysBeforeMonth(leap, m) + d == DaysBeforeMonth(leap, n) + e
    ensures m == n && d == e
  {
    InMonth(leap, m, d);
    if m < n {
      MonthsAscend(leap, m + 1, n);
    }
  }

  lemma YearUnique(c: Civil, e: Civil)
    requires Regular(c) && Regular(e) && c.year <= e.year
    requires DayNumber(c.year, c.month, c.day) == DayNumber(e.year, e.month, e.day)
    ensures c.year == e.year
  {
    if c.year < e.year {
      YearsAscend(c.year + 1, e.year);
      InYear(c);
      InYear(e);
    }
  }

  lemma DateUnique(c: Civil, e: Civil)
    requires Regular(c) && Regular(e) && c.year <= e.year
    requires DayNumber(c.year, c.month, c.day) == DayNumber(e.year, e.month, e.day)
    ensures c.year == e.year && c.month == e.month && c.day == e.day
  {
    YearUnique(c, e);
    var leap := Leap(c.year);
    if c.month <= e.month {
      DayUnique(leap, c.month, c.day, e.month, e.day);
    } else {
      DayUnique(leap, e.month, e.day, c.month, c.day);
    }
  }

  lemma ClockRange(c: Civil)
    requires Regular(c)
    ensures 0 <= c.hour * 3600 + c.minute * 60 + c.second < 86400
  {
  }

  lemma ClockUnique(c: Civil, e: Civil)
    requires Regular(c) && Regular(e)
    requires c.hour * 3600 + c.minute * 60 + c.second == e.hour * 3600 + e.minute * 60 + e.second
    ensures c.hour == e.hour && c.minute == e.minute && c.second == e.second
  {
    assert c.minute * 60 + c.second < 3600 && e.minute * 60 + e.second < 3600;
    assert c.hour == e.hour;
  }

  lemma DayAndTime(a: int, x: int, b: int, y: int)
    requires a * 86400 + x == b * 86400 + y && 0 <= x < 86400 && 0 <= y < 86400
    ensures a == b && x == y
  {
  }

  lemma CivilUnique(c: Civil, e: Civil)
    requires Regular(c) && Regular(e) && FromCivil(c) == FromCivil(e)
    ensures c == e
  {
    ClockRange(c);
    ClockRange(e);
    DayAndTime(DayNumber(c.year, c.month, c.day) - EPOCH, c.hour * 3600 + c.minute * 60 + c.second,
               DayNumber(e.year, e.month, e.day) - EPOCH, e.hour * 3600 + e.minute * 60 + e.second);
    ClockUnique(c, e);
    if c.year <= e.year {
      DateUnique(c, e);
    } else {
      DateUnique(e, c);
    }
  }

  lemma DayOf(a: int, x: int)
    requires 0 <= x < 86400
    ensures (a * 86400 + x) / 86400 == a
  {
    var q := (a * 86400 + x) / 86400;
    DayAndTime(a, x, q, (a * 86400 + x) % 86400);
  }

  /** The calendar fields of the seconds that calendar fields make up. */
  lemma CivilReturns(c: Civil)
    requires Regular(c)
    ensures 0 <= FromCivil(c) / DAY + EPOCH < DaysBeforeYear(10000) && ToCivil(FromCivil(c)) == c
  {
    ClockRange(c);
    DayOf(DayNumber(c.year, c.month, c.day) - EPOCH, c.hour * 3600 + c.minute * 60 + c.second);
    InYear(c);
    CivilUnique(ToCivil(FromCivil(c)), c);
  }

  // ----- Slices of slices -----

  lemma PartOfTail(s: string, i: nat, k: nat, l: nat)
    requires k <= l && i + l <= |s|
    ensures s[i..][k..l] == s[i + k..i + l]
  {
  }

  lemma Cut(s: string, i: nat, j: nat)
    requires i <= j <= |s|
    ensures s[i..] == s[i..j] + s[j..]
  {
  }

  lemma PairAt(s: string, i: nat)
    requires i + 2 <= |s|
    ensures s[i..i + 2] == [s[i], s[i + 1]]
  {
  }

  lemma Halves(a: string, b: string)
    ensures (a + b)[..|a|] == a && (a + b)[|a|..] == b
  {
  }

  // ----- What is read can only have been written so -----

  lemma TwoWrites(s: string)
    requires |s| == 2 && TwoValue(s) >= 0
    ensures TwoValue(s) < 100 && Two(TwoValue(s)) == s
  {
    assert s == [s[0], s[1]];
  }

  lemma CivilWrites(s: string, c: Civil)
    requires |s| == 19 && ReadCivil(s) == Some(c)
    ensures CivilText(c) == s
  {
    TwoWrites(s[0..2]); TwoWrites(s[2..4]); TwoWrites(s[5..7]); TwoWrites(s[8..10]);
    TwoWrites(s[11..13]); TwoWrites(s[14..16]); TwoWrites(s[17..19]);
    assert c.year / 100 == TwoValue(s[0..2]) && c.year % 100 == TwoValue(s[2..4]);
    var t := CivilText(c);
    assert t == s[0..2] + s[2..4] + "-" + s[5..7] + "-" + s[8..10] + "T" + s[11..13] + ":" + s[14..16] + ":" + s[17..19];
    assert t == s;
  }

  lemma SameQuotient(q: nat, x: nat, d: nat, r: nat, p: nat)
    requires q * p + x == d * p + r && x < p && r < p
    ensures q == d && x == r
  {
    assert (q - d) * p == r - x && (d - q) * p == x - r;
    if q > d {
      Times(q - d, p);
    } else if q < d {
      Times(d - q, p);
    }
  }

  lemma QuotientOf(d: nat, p: nat, r: nat)
    requires r < p
    ensures (d * p + r) / p == d && (d * p + r) % p == r
  {
    var n := d * p + r;
    DivMod(n, p);
    SameQuotient(n / p, n % p, d, r, p);
  }

  lemma Times(k: nat, p: nat)
    requires k >= 1
    ensures k * p >= p
  {
  }

  lemma {:induction false} FractionRange(ds: string, w: nat)
    requires |ds| <= w && forall i :: 0 <= i < |ds| ==> IsDigit(ds[i])
    ensures 0 <= FractionValue(ds, w) < Power(w)
  {
    if ds != "" {
      FractionRange(ds[1..], w - 1);
      assert IsDigit(ds[0]);
      DigitTimes(ds[0] as int - '0' as int, Power(w - 1));
    }
  }

  lemma DigitTimes(d: nat, p: nat)
    requires d <= 9
    ensures 0 <= d * p <= 9 * p
  {
  }

  /** Without a final zero, the digits are those of the value. */
  lemma {:induction false} FractionWrites(ds: string, w: nat)
    requires 0 < |ds| <= w && (forall i :: 0 <= i < |ds| ==> IsDigit(ds[i])) && ds[|ds| - 1] != '0'
    ensures 0 < FractionValue(ds, w) < Power(w) && FractionDigits(FractionValue(ds, w), w) == ds
  {
    var d, p, rest := ds[0] as int - '0' as int, Power(w - 1), ds[1..];
    assert IsDigit(ds[0]);
    FractionRange(ds, w);
    FractionRange(rest, w - 1);
    var r := FractionValue(rest, w - 1);
    QuotientOf(d, p, r);
    assert Digit(d) == ds[0];
    assert ds == [ds[0]] + rest;
    if rest == "" {
      Times(d, p);
    } else {
      FractionWrites(rest, w - 1);
      DigitTimes(d, p);
    }
  }

  lemma HoursAndMinutes(h: nat, n: nat)
    requires n < 60
    ensures (h * 60 + n) / 60 == h && (h * 60 + n) % 60 == n
  {
  }

  lemma OffsetWrites(sign: char, h: nat, n: nat)
    requires sign in "+-" && h < 24 && n < 60 && (h > 0 || n > 0)
    ensures ZoneText(if sign == '-' then -(h * 60 + n) else h * 60 + n) == [sign] + (Two(h) + ":" + Two(n))
  {
    HoursAndMinutes(h, n);
  }

  lemma NotZero(h: nat, n: nat)
    requires h < 24 && n < 60 && Two(h) + ":" + Two(n) != "00:00"
    ensures h > 0 || n > 0
  {
    assert Two(0) + ":" + Two(0) == "00:00";
  }

  lemma ZoneWrites(s: string, zone: int)
    requires ReadZone(s) == Some(zone) && (|s| == 6 ==> s[1..] != "00:00")
    ensures -1440 < zone < 1440 && ZoneText(zone) == s
    ensures s == "Z" <==> zone == 0
  {
    if s != "Z" {
      TwoWrites(s[1..3]);
      TwoWrites(s[4..6]);
      assert s[1..] == s[1..3] + ":" + s[4..6];
      assert s == [s[0]] + s[1..];
      NotZero(TwoValue(s[1..3]), TwoValue(s[4..6]));
      OffsetWrites(s[0], TwoValue(s[1..3]), TwoValue(s[4..6]));
    }
  }

  // ----- Go's form -----

  /** Where the zone of a text begins: at its last character or six before its end. */
  function ZoneStart(s: string): int {
    if s != "" && s[|s| - 1] == 'Z' then |s| - 1 else |s| - 6
  }

  /** Digits with - - T : : between them. */
  predicate DateForm(s: string) {
    |s| >= 19 && forall i :: 0 <= i < 19 ==>
      match i
      case 4 => s[i] == '-'
      case 7 => s[i] == '-'
      case 10 => s[i] == 'T'
      case 13 => s[i] == ':'
      case 16 => s[i] == ':'
      case _ => IsDigit(s[i])
  }

  /**
   Date and time of day, then nothing or a point and one to nine digits of which
   the last is not 0, then Z or a numeric offset that is not zero.
   */
  predicate GoForm(s: string) {
    var z := ZoneStart(s);
    && DateForm(s) && 19 <= z
    && (z > 19 ==> 21 <= z <= 29 && s[19] == '.' && s[z - 1] != '0' && forall i :: 20 <= i < z ==> IsDigit(s[i]))
    && (s[|s| - 1] != 'Z' ==> s[z] in "+-" && s[z + 1..] != "00:00")
  }

  lemma Associate(a: string, b: string, c: string)
    ensures a + (b + c) == a + b + c
  {
  }

  /** Digits after a point are read up to what follows them. */
  lemma FractionIsSplit(ds: string, tail: string, w: nat, fraction: int, zone: int)
    requires 0 < |ds| <= w && (forall i :: 0 <= i < |ds| ==> IsDigit(ds[i])) && tail != "" && !IsDigit(tail[0])
    requires ReadRest("." + ds + tail, w) == Some((fraction, zone))
    ensures fraction == FractionValue(ds, w) && ReadZone(tail) == Some(zone)
  {
    var r := "." + ds + tail;
    assert r[1..] == ds + tail;
    DigitsOf(ds, tail);
    Halves(ds, tail);
  }

  lemma FractionOfForm(s: string, z: int, ds: string, tail: string)
    requires GoForm(s) && z == ZoneStart(s) > 19 && ds == s[20..z] && tail == s[z..]
    ensures s[19..] == "." + ds + tail && tail != "" && !IsDigit(tail[0])
    ensures 0 < |ds| <= 9 && ds[|ds| - 1] != '0' && forall i :: 0 <= i < |ds| ==> IsDigit(ds[i])
  {
    Cut(s, 19, 20);
    Cut(s, 20, z);
    Associate(".", ds, tail);
    assert s[19..20] == ".";
    assert forall i :: 0 <= i < |ds| ==> ds[i] == s[20 + i];
    assert tail[0] == s[z];
  }

  /** What is read of a text of Go's form with a fraction: its digits and then its zone. */
  lemma RestSplits(s: string, z: int, ds: string, tail: string, w: nat, fraction: int, zone: int)
    requires GoForm(s) && z == ZoneStart(s) > 19 && ds == s[20..z] && tail == s[z..]
    requires w == 9 && ReadRest(s[19..], w) == Some((fraction, zone))
    ensures s[19..] == "." + ds + tail
    ensures 0 < |ds| <= w && ds[|ds| - 1] != '0' && forall i :: 0 <= i < |ds| ==> IsDigit(ds[i])
    ensures fraction == FractionValue(ds, w) && ReadZone(tail) == Some(zone)
  {
    FractionOfForm(s, z, ds, tail);
    FractionIsSplit(ds, tail, w, fraction, zone);
  }

  lemma RestWrites(s: string, r: string, w: nat, fraction: int, zone: int)
    requires GoForm(s) && r == s[19..] && w == 9 && ReadRest(r, w) == Some((fraction, zone))
    ensures 0 <= fraction < Power(w) && -1440 < zone < 1440 && (s[|s| - 1] == 'Z' <==> zone == 0)
    ensures r == FractionText(fraction, w) + ZoneText(zone)
  {
    var z := ZoneStart(s);
    if z == 19 {
      ZoneWrites(r, zone);
    } else {
      var ds, tail := s[20..z], s[z..];
      RestSplits(s, z, ds, tail, w, fraction, zone);
      FractionWrites(ds, w);
      assert tail[1..] == s[z + 1..];
      ZoneWrites(tail, zone);
    }
  }

  lemma SecondsAndFraction(a: int, x: int)
    requires 0 <= x < SECOND
    ensures (a * SECOND + x) / SECOND == a && (a * SECOND + x) % SECOND == x
  {
  }

  lemma SecondsOfDate(c: Civil, seconds: int)
    requires Regular(c) && seconds == FromCivil(c)
    ensures 0 <= seconds / DAY + EPOCH < DaysBeforeYear(10000) && ToCivil(seconds) == c
  {
    CivilReturns(c);
  }

  /** The text of an instant from its parts. */
  lemma PartsWrite(t: Timestamp, w: nat, c: Civil, fraction: nat)
    requires Power(w) == SECOND && Regular(c) && fraction < SECOND && -1440 < t.zone < 1440
    requires LocalNanos(t) == FromCivil(c) * SECOND + fraction
    ensures Encodable(t) && TimeTextIn(t, w) == TextOf(c, fraction, w, t.zone)
  {
    var seconds := FromCivil(c);
    SecondsOfDate(c, seconds);
    SecondsAndFraction(seconds, fraction);
    SplitWrites(t, w, c, seconds, fraction);
  }

  lemma SplitWrites(t: Timestamp, w: nat, c: Civil, seconds: int, fraction: nat)
    requires Power(w) == SECOND && Regular(c) && fraction < SECOND && -1440 < t.zone < 1440
    requires 0 <= seconds / DAY + EPOCH < DaysBeforeYear(10000) && ToCivil(seconds) == c
    requires LocalNanos(t) / SECOND == seconds && LocalNanos(t) % SECOND == fraction
    ensures Encodable(t) && TimeTextIn(t, w) == TextOf(c, fraction, w, t.zone)
  {
  }

  lemma PartsOf(s: string, w: nat, t: Timestamp) returns (c: Civil, fraction: int)
    requires ReadTimeIn(s, w) == Some(t)
    ensures |s| >= 19 && ReadCivil(s[..19]) == Some(c) && ReadRest(s[19..], w) == Some((fraction, t.zone))
    ensures Regular(c) && LocalNanos(t) == FromCivil(c) * SECOND + fraction
  {
    c, fraction := ReadParts(s, w).value.0, ReadParts(s, w).value.1;
  }

  lemma GoFormIsWrittenIn(s: string, t: Timestamp, w: nat)
    requires GoForm(s) && w == 9 && Power(w) == SECOND && ReadTimeIn(s, w) == Some(t)
    ensures Encodable(t) && TimeTextIn(t, w) == s && (s[|s| - 1] == 'Z' <==> t.zone == 0)
  {
    var c, fraction := PartsOf(s, w, t);
    CivilWrites(s[..19], c);
    RestWrites(s, s[19..], w, fraction, t.zone);
    PartsWrite(t, w, c, fraction);
    assert s == s[..19] + s[19..];
  }

  // ----- What is written has Go's form -----

  lemma CivilTextForm(c: Civil)
    requires Regular(c)
    ensures DateForm(CivilText(c))
  {
  }

  lemma {:induction false} FractionEnds(n: nat, w: nat)
    requires 0 < n < Power(w)
    ensures var ds := FractionDigits(n, w); ds[|ds| - 1] != '0'
  {
    var p := Power(w - 1);
    FirstDigit(n, p);
    DivMod(n, p);
    if n % p > 0 {
      FractionEnds(n % p, w - 1);
      var ds, rest := FractionDigits(n, w), FractionDigits(n % p, w - 1);
      assert ds[|ds| - 1] == rest[|rest| - 1];
    }
  }

  lemma ZoneTextForm(zone: int)
    requires -1440 < zone < 1440
    ensures var z := ZoneText(zone);
            if zone == 0 then z == "Z"
            else |z| == 6 && z[0] in "+-" && z[1..] != "00:00" && z[5] != 'Z'
  {
    if zone != 0 {
      var z := ZoneText(zone);
      ZoneReads(zone);
      assert z[1..3] == z[1..][0..2] && z[4..6] == z[1..][3..5];
    }
  }

  /** The form of a text from that of its three parts. */
  lemma FormOfParts(s: string, a: string, f: string, z: string)
    requires s == a + (f + z) && |a| == 19 && DateForm(a)
    requires f == "" || (2 <= |f| <= 10 && f[0] == '.' && f[|f| - 1] != '0' && forall i :: 1 <= i < |f| ==> IsDigit(f[i]))
    requires z == "Z" || (|z| == 6 && z[0] in "+-" && z[1..] != "00:00" && z[5] != 'Z')
    ensures GoForm(s)
  {
    assert forall i :: 0 <= i < 19 ==> s[i] == a[i];
    assert forall i :: 19 <= i < 19 + |f| ==> s[i] == f[i - 19];
    assert forall i :: 19 + |f| <= i < |s| ==> s[i] == z[i - 19 - |f|];
    assert ZoneStart(s) == 19 + |f|;
    assert s[19 + |f| + 1..] == z[1..];
  }

  lemma FractionForm(n: nat, w: nat)
    requires 0 < n < Power(w)
    ensures var f := FractionText(n, w);
            2 <= |f| <= w + 1 && f[0] == '.' && f[|f| - 1] != '0' && forall i :: 1 <= i < |f| ==> IsDigit(f[i])
  {
    FractionEnds(n, w);
    var f, ds := FractionText(n, w), FractionDigits(n, w);
    assert forall i :: 1 <= i < |f| ==> f[i] == ds[i - 1];
  }

  lemma TextForm(c: Civil, fraction: nat, w: nat, zone: int)
    requires Regular(c) && w == 9 && fraction < Power(w) && -1440 < zone < 1440
    ensures GoForm(TextOf(c, fraction, w, zone))
  {
    CivilTextForm(c);
    ZoneTextForm(zone);
    if fraction > 0 {
      FractionForm(fraction, w);
    }
    FormOfParts(TextOf(c, fraction, w, zone), CivilText(c), FractionText(fraction, w), ZoneText(zone));
  }

  /**
   The text of a timestamp is the only one of Go's form that reads as it: Z
   exactly for UTC, and no fraction or one that does not end in 0.
   */
  lemma TimeTextExactly(t: Timestamp, s: string)
    requires Encodable(t)
    ensures s == TimeText(t) <==> GoForm(s) && ReadTime(s) == Some(t)
    ensures TimeText(t)[|TimeText(t)| - 1] == 'Z' <==> t.zone == 0
  {
    NinePlaces();
    TimeReads(t);
    var written := TimeText(t);
    TextForm(ToCivil(LocalNanos(t) / SECOND), LocalNanos(t) % SECOND, 9, t.zone);
    GoFormIsWrittenIn(written, t, 9);
    if GoForm(s) && ReadTime(s) == Some(t) {
      GoFormIsWrittenIn(s, t, 9);
    }
  }

  // ----- What a text means -----

  lemma Shift(d: nat, p: nat, m: nat, n: nat, last: nat)
    requires m == d * p + n
    ensures 10 * m + last == d * (10 * p) + (10 * n + last)
  {
  }

  lemma LastDigitValue(s: string, last: char)
    requires IsDigit(last) && forall i :: 0 <= i < |s| ==> IsDigit(s[i])
    ensures forall i :: 0 <= i < |s + [last]| ==> IsDigit((s + [last])[i])
    ensures NatValue(s + [last]) == 10 * NatValue(s) + (last as int - '0' as int)
  {
    assert (s + [last])[..|s|] == s;
  }

  lemma FirstDigitNext(first: char, init: string, last: char)
    requires IsDigit(first) && IsDigit(last) && forall i :: 0 <= i < |init| ==> IsDigit(init[i])
    requires forall i :: 0 <= i < |[first] + init| ==> IsDigit(([first] + init)[i])
    requires NatValue([first] + init) == (first as int - '0' as int) * Power(|init|) + NatValue(init)
    ensures forall i :: 0 <= i < |[first] + (init + [last])| ==> IsDigit(([first] + (init + [last]))[i])
    ensures forall i :: 0 <= i < |init + [last]| ==> IsDigit((init + [last])[i])
    ensures NatValue([first] + (init + [last])) ==
            (first as int - '0' as int) * Power(|init + [last]|) + NatValue(init + [last])
  {
    LastDigitValue(init, last);
    LastDigitValue([first] + init, last);
    Associate([first], init, [last]);
    Shift(first as int - '0' as int, Power(|init|), NatValue([first] + init), NatValue(init), last as int - '0' as int);
  }

  lemma {:induction false} FirstDigitValue(first: char, s: string)
    requires IsDigit(first) && forall i :: 0 <= i < |s| ==> IsDigit(s[i])
    ensures forall i :: 0 <= i < |[first] + s| ==> IsDigit(([first] + s)[i])
    ensures NatValue([first] + s) == (first as int - '0' as int) * Power(|s|) + NatValue(s)
  {
    if s == "" {
      LastDigitValue("", first);
      assert "" + [first] == [first] + "";
    } else {
      var init, last := s[..|s| - 1], s[|s| - 1];
      assert IsDigit(last);
      FirstDigitValue(first, init);
      assert init + [last] == s;
      FirstDigitNext(first, init, last);
    }
  }

  lemma Scale(d: nat, p: nat, n: nat, q: nat, pq: nat)
    requires pq == p * q
    ensures (d * p + n) * q == d * pq + n * q
  {
  }

  lemma {:induction false} PowerSum(m: nat, n: nat)
    ensures Power(m + n) == Power(m) * Power(n)
  {
    if m > 0 {
      PowerSum(m - 1, n);
      assert Power(m - 1 + n) == Power(m - 1) * Power(n);
    }
  }

  /** The digits after the point, as many as there are, scaled to w places. */
  lemma {:induction false} FractionNumber(ds: string, w: nat)
    requires |ds| <= w && forall i :: 0 <= i < |ds| ==> IsDigit(ds[i])
    ensures FractionValue(ds, w) == NatValue(ds) * Power(w - |ds|)
  {
    if ds != "" {
      var rest := ds[1..];
      assert IsDigit(ds[0]);
      FractionNumber(rest, w - 1);
      FirstDigitValue(ds[0], rest);
      assert ds == [ds[0]] + rest;
      PowerSum(|rest|, w - |ds|);
      Scale(ds[0] as int - '0' as int, Power(|rest|), NatValue(rest), Power(w - |ds|), Power(w - 1));
    }
  }

  lemma TwoNumber(s: string)
    requires |s| == 2 && TwoValue(s) >= 0
    ensures (forall i :: 0 <= i < |s| ==> IsDigit(s[i])) && NatValue(s) == TwoValue(s)
  {
    LastDigitValue("", s[0]);
    LastDigitValue([s[0]], s[1]);
    assert [] + [s[0]] == [s[0]] && [s[0]] + [s[1]] == s;
  }

  lemma FourNumber(s: string, r: string)
    requires |s| == 2 && |r| == 2 && TwoValue(s) >= 0 && TwoValue(r) >= 0
    ensures (forall i :: 0 <= i < |s + r| ==> IsDigit((s + r)[i])) && NatValue(s + r) == 100 * TwoValue(s) + TwoValue(r)
  {
    TwoNumber(s);
    LastDigitValue(s, r[0]);
    LastDigitValue(s + [r[0]], r[1]);
    assert s + [r[0]] + [r[1]] == s + r;
  }

  /** The number that the characters from i to j stand for. */
  function Number(s: string, i: nat, j: nat): nat
    requires i <= j <= |s|
  {
    if forall k :: i <= k < j ==> IsDigit(s[k]) then NatValue(s[i..j]) else 0
  }

  lemma NumberOf(s: string, i: nat, j: nat, part: string)
    requires i <= j <= |s| && part == s[i..j] && forall k :: 0 <= k < |part| ==> IsDigit(part[k])
    ensures Number(s, i, j) == NatValue(part)
  {
    assert forall k :: i <= k < j ==> s[k] == part[k - i];
  }

  /** Year, month, day, hour, minute and second, each where the form has it. */
  function CivilOf(s: string): Civil
    requires |s| >= 19
  {
    Civil(Number(s, 0, 4), Number(s, 5, 7), Number(s, 8, 10), Number(s, 11, 13), Number(s, 14, 16), Number(s, 17, 19))
  }

  /** Nanoseconds: the digits after the point, if there are any, followed by zeros up to nine. */
  function NanosOf(s: string): nat
    requires GoForm(s)
  {
    var z := ZoneStart(s);
    if z == 19 then 0 else Number(s, 20, z) * Power(29 - z)
  }

  /** Minutes east of UTC. */
  function ZoneOf(s: string): int
    requires GoForm(s)
  {
    var z := ZoneStart(s);
    if s[z] == 'Z' then 0
    else (if s[z] == '-' then -1 else 1) * (60 * Number(s, z + 1, z + 3) + Number(s, z + 4, z + 6))
  }

  lemma PlaceOfTwo(s: string, i: nat)
    requires i + 2 <= |s| && TwoValue(s[i..i + 2]) >= 0
    ensures Number(s, i, i + 2) == TwoValue(s[i..i + 2])
  {
    TwoNumber(s[i..i + 2]);
    NumberOf(s, i, i + 2, s[i..i + 2]);
  }

  lemma CivilPlaces(s: string, c: Civil)
    requires |s| >= 19 && ReadCivil(s[..19]) == Some(c)
    ensures CivilOf(s) == c
  {
    var t := s[..19];
    assert t[0..2] == s[0..2] && t[2..4] == s[2..4] && t[5..7] == s[5..7] && t[8..10] == s[8..10];
    assert t[11..13] == s[11..13] && t[14..16] == s[14..16] && t[17..19] == s[17..19];
    FourNumber(s[0..2], s[2..4]);
    assert s[0..2] + s[2..4] == s[0..4];
    NumberOf(s, 0, 4, s[0..4]);
    PlaceOfTwo(s, 5); PlaceOfTwo(s, 8); PlaceOfTwo(s, 11); PlaceOfTwo(s, 14); PlaceOfTwo(s, 17);
  }

  lemma ZonePlaces(s: string, zone: int)
    requires GoForm(s) && ReadZone(s[ZoneStart(s)..]) == Some(zone)
    ensures ZoneOf(s) == zone
  {
    var z := ZoneStart(s);
    var r := s[z..];
    if s[z] != 'Z' {
      PartOfTail(s, z, 1, 3);
      PartOfTail(s, z, 4, 6);
      PlaceOfTwo(s, z + 1);
      PlaceOfTwo(s, z + 4);
    }
  }

  lemma FractionPlaces(s: string, z: int, ds: string, w: nat)
    requires GoForm(s) && z == ZoneStart(s) > 19 && ds == s[20..z] && w == 9
    requires |ds| <= w && forall i :: 0 <= i < |ds| ==> IsDigit(ds[i])
    ensures NanosOf(s) == FractionValue(ds, w)
  {
    FractionNumber(ds, w);
    NumberOf(s, 20, z, ds);
  }

  lemma RestPlaces(s: string, w: nat, fraction: int, zone: int)
    requires GoForm(s) && w == 9 && ReadRest(s[19..], w) == Some((fraction, zone))
    ensures NanosOf(s) == fraction && ZoneOf(s) == zone
  {
    var z := ZoneStart(s);
    if z > 19 {
      RestSplits(s, z, s[20..z], s[z..], w, fraction, zone);
      FractionPlaces(s, z, s[20..z], w);
    }
    ZonePlaces(s, zone);
  }

  lemma TextMeaningIn(s: string, w: nat, t: Timestamp)
    requires GoForm(s) && w == 9 && ReadTimeIn(s, w) == Some(t)
    ensures Regular(CivilOf(s)) && t.zone == ZoneOf(s)
    ensures t.nanos == (FromCivil(CivilOf(s)) - 60 * ZoneOf(s)) * 1_000_000_000 + NanosOf(s)
  {
    var c, fraction := PartsOf(s, w, t);
    CivilPlaces(s, c);
    RestPlaces(s, w, fraction, t.zone);
  }

  /** The characters of a timestamp's text, place by place, say the calendar date, the time of day, the nanoseconds and the zone. */
  lemma TimeTextMeaning(t: Timestamp)
    requires Encodable(t)
    ensures var s := TimeText(t);
            && GoForm(s) && Regular(CivilOf(s)) && t.zone == ZoneOf(s)
            && t.nanos == (FromCivil(CivilOf(s)) - 60 * ZoneOf(s)) * 1_000_000_000 + NanosOf(s)
  {
    TimeTextExactly(t, TimeText(t));
    TextMeaningIn(TimeText(t), 9, t);
  }

  // ----- Examples -----

  lemma HalvesRead(s: string, a: string, b: string, w: nat, c: Civil, fraction: int, t: Timestamp)
    requires |a| == 19 && s == a + b && ReadCivil(a) == Some(c) && ReadRest(b, w) == Some((fraction, t.zone))
    requires FromCivil(c) * SECOND + fraction == LocalNanos(t)
    ensures ReadTimeIn(s, w) == Some(t)
  {
    Halves(a, b);
    assert ReadParts(s, w) == Some((c, fraction, t.zone));
  }

  /** A text of Go's form in two halves that are read apart. */
  lemma HalvesTell(a: string, b: string, c: Civil, fraction: int, t: Timestamp)
    requires |a| == 19 && ReadCivil(a) == Some(c) && ReadRest(b, 9) == Some((fraction, t.zone))
    requires FromCivil(c) * SECOND + fraction == LocalNanos(t) && GoForm(a + b)
    ensures Encodable(t) && TimeText(t) == a + b
  {
    NinePlaces();
    HalvesRead(a + b, a, b, 9, c, fraction, t);
    GoFormIsWrittenIn(a + b, t, 9);
  }

  function Ten(a: char, b: char): int {
    10 * (a as int - '0' as int) + (b as int - '0' as int)
  }

  lemma PairValue(s: string, i: nat)
    requires i + 2 <= |s| && IsDigit(s[i]) && IsDigit(s[i + 1])
    ensures TwoValue(s[i..i + 2]) == Ten(s[i], s[i + 1])
  {
    PairAt(s, i);
  }

  lemma CivilOfChars(s: string, c: Civil)
    requires |s| == 19 && DateForm(s) && Regular(c)
    requires c.year == 100 * Ten(s[0], s[1]) + Ten(s[2], s[3]) && c.month == Ten(s[5], s[6]) && c.day == Ten(s[8], s[9])
    requires c.hour == Ten(s[11], s[12]) && c.minute == Ten(s[14], s[15]) && c.second == Ten(s[17], s[18])
    ensures ReadCivil(s) == Some(c)
  {
    PairValue(s, 0); PairValue(s, 2); PairValue(s, 5); PairValue(s, 8); PairValue(s, 11); PairValue(s, 14); PairValue(s, 17);
  }

  lemma NoonIsRead(s: string)
    requires s == "2026-06-06T12:00:00"
    ensures ReadCivil(s) == Some(Civil(2026, 6, 6, 12, 0, 0))
  {
    CivilOfChars(s, Civil(2026, 6, 6, 12, 0, 0));
  }

  /** An instant of UTC. */
  lemma NoonIsWritten(t: Timestamp)
    requires t.nanos == 1780747200 * 1_000_000_000 && t.zone == 0
    ensures Encodable(t) && TimeText(t) == "2026-06-06T12:00:00Z"
  {
    var a, b, c := "2026-06-06T12:00:00", "Z", Civil(2026, 6, 6, 12, 0, 0);
    NoonIsRead(a);
    assert FromCivil(c) == 1780747200;
    assert a + b == "2026-06-06T12:00:00Z";
    HalvesTell(a, b, c, 0, t);
  }

  lemma MorningIsRead(s: string)
    requires s == "2026-03-09T07:05:02"
    ensures ReadCivil(s) == Some(Civil(2026, 3, 9, 7, 5, 2))
  {
    CivilOfChars(s, Civil(2026, 3, 9, 7, 5, 2));
  }

  lemma HalfPast(w: nat)
    requires w == 9
    ensures FractionValue("5", w) == 500_000_000
  {
    NinePlaces();
    assert Power(w) == 10 * Power(w - 1);
    assert "5"[1..] == "";
    assert FractionValue("", w - 1) == 0;
  }

  lemma OffsetIsRead(zone: string)
    requires zone == "+05:30"
    ensures ReadZone(zone) == Some(330)
  {
    PairValue(zone, 1);
    PairValue(zone, 4);
  }

  lemma FractionIsRead(b: string)
    requires b == ".5+05:30"
    ensures ReadRest(b, 9) == Some((500_000_000, 330))
  {
    HalfPast(9);
    OffsetIsRead("+05:30");
    ReadFraction("5", 9, "+05:30", 330);
    assert b == "." + "5" + "+05:30";
  }

  lemma MorningForm(a: string, b: string)
    requires a == "2026-03-09T07:05:02" && b == ".5+05:30"
    ensures a + b == "2026-03-09T07:05:02.5+05:30" && GoForm(a + b)
  {
    var s := "2026-03-09T07:05:02.5+05:30";
    assert a + b == s;
    assert s[22..] == "05:30";
  }

  lemma MorningSeconds(c: Civil)
    requires c == Civil(2026, 3, 9, 7, 5, 2)
    ensures FromCivil(c) == 1773020102 + 330 * 60
  {
  }

  /** One of another zone, with a fraction. */
  lemma MorningIsWritten(t: Timestamp)
    requires t.nanos == 1773020102 * 1_000_000_000 + 500_000_000 && t.zone == 330
    ensures Encodable(t) && TimeText(t) == "2026-03-09T07:05:02.5+05:30"
  {
    var a, b, c := "2026-03-09T07:05:02", ".5+05:30", Civil(2026, 3, 9, 7, 5, 2);
    MorningIsRead(a);
    FractionIsRead(b);
    MorningForm(a, b);
    MorningSeconds(c);
    HalvesTell(a, b, c, 500_000_000, t);
  }
}
