/**
 Timestamps as Go writes them into JSON: RFC 3339 with the fraction of a second
 stripped of trailing zeros, in the zone the timestamp carries.
 */
module Rfc3339 {
  import opened Protocol
  import opened Text
  import opened Json
  import opened GoInt

  const DAY := 86400
  /** Days from 0000-01-01 to 1970-01-01 in the proleptic Gregorian calendar. */
  const EPOCH := 719528

  // ----- Calendar -----

  predicate Leap(year: nat) {
    year % 4 == 0 && (year % 100 != 0 || year % 400 == 0)
  }

  function DaysBeforeYear(year: nat): nat {
    365 * year + (year + 3) / 4 - (year + 99) / 100 + (year + 399) / 400
  }

  /** How a quotient rounded up grows, from the quotient and remainder of what is divided. */
  lemma FoursOf(year: nat, q: nat, r: nat)
    requires year == 4 * q + r && r < 4
    ensures (year + 3) / 4 == (if r == 0 then q else q + 1) && (year + 4) / 4 == q + 1
  {
  }

  lemma HundredsOf(year: nat, q: nat, r: nat)
    requires year == 100 * q + r && r < 100
    ensures (year + 99) / 100 == (if r == 0 then q else q + 1) && (year + 100) / 100 == q + 1
  {
  }

  lemma FourHundredsOf(year: nat, q: nat, r: nat)
    requires year == 400 * q + r && r < 400
    ensures (year + 399) / 400 == (if r == 0 then q else q + 1) && (year + 400) / 400 == q + 1
  {
  }

  lemma Fours(year: nat)
    ensures (year + 4) / 4 == (year + 3) / 4 + if year % 4 == 0 then 1 else 0
  {
    FoursOf(year, year / 4, year % 4);
  }

  lemma Hundreds(year: nat)
    ensures (year + 100) / 100 == (year + 99) / 100 + if year % 100 == 0 then 1 else 0
  {
    HundredsOf(year, year / 100, year % 100);
  }

  lemma FourHundreds(year: nat)
    ensures (year + 400) / 400 == (year + 399) / 400 + if year % 400 == 0 then 1 else 0
  {
    FourHundredsOf(year, year / 400, year % 400);
  }

  lemma MultipleOfFour(k: nat)
    ensures 4 * k % 4 == 0
  {
  }

  lemma MultipleOfHundred(k: nat)
    ensures 100 * k % 100 == 0
  {
  }

  /** A multiple of 400 is one of 100, and a multiple of 100 is one of 4. */
  lemma Multiples(year: nat)
    ensures (year % 400 == 0 ==> year % 100 == 0) && (year % 100 == 0 ==> year % 4 == 0)
  {
    if year % 400 == 0 {
      MultipleOfHundred(4 * (year / 400));
    }
    if year % 100 == 0 {
      MultipleOfFour(25 * (year / 100));
    }
  }

  /** The same sum with its parts named, so that a proof can treat them as numbers. */
  lemma Sum(year: nat, a: nat, b: nat, c: nat)
    requires a == (year + 3) / 4 && b == (year + 99) / 100 && c == (year + 399) / 400
    ensures DaysBeforeYear(year) == 365 * year + a - b + c
  {
  }

  lemma YearLength(year: nat)
    ensures DaysBeforeYear(year + 1) == DaysBeforeYear(year) + if Leap(year) then 366 else 365
  {
    Fours(year);
    Hundreds(year);
    FourHundreds(year);
    Multiples(year);
    Sum(year, (year + 3) / 4, (year + 99) / 100, (year + 399) / 400);
    Sum(year + 1, (year + 4) / 4, (year + 100) / 100, (year + 400) / 400);
  }

  /** Days of the year before month m; month 13 stands for the next year. */
  function DaysBeforeMonth(leap: bool, m: nat): nat
    requires 1 <= m <= 13
  {
    var n := match m
             case 1 => 0 case 2 => 31 case 3 => 59 case 4 => 90 case 5 => 120 case 6 => 151 case 7 => 181
             case 8 => 212 case 9 => 243 case 10 => 273 case 11 => 304 case 12 => 334 case _ => 365;
    if leap && m > 2 then n + 1 else n
  }

  function YearOf(day: nat, from: nat): (year: nat)
    requires from < 10000 && DaysBeforeYear(from) <= day < DaysBeforeYear(10000)
    ensures year < 10000 && DaysBeforeYear(year) <= day < DaysBeforeYear(year + 1)
    decreases 10000 - from
  {
    if day < DaysBeforeYear(from + 1) then from else YearOf(day, from + 1)
  }

  /** No year is longer than 366 days, so the search may start here. */
  lemma YearFloor(day: nat)
    requires day < DaysBeforeYear(10000)
    ensures day / 366 < 10000 && DaysBeforeYear(day / 366) <= day
  {
    var y := day / 366;
    assert DaysBeforeYear(y) <= 366 * y;
  }

  function MonthOf(day: nat, leap: bool, from: nat): (month: nat)
    requires 1 <= from <= 12 && DaysBeforeMonth(leap, from) <= day < DaysBeforeMonth(leap, 13)
    ensures 1 <= month <= 12 && DaysBeforeMonth(leap, month) <= day < DaysBeforeMonth(leap, month + 1)
    decreases 12 - from
  {
    if day < DaysBeforeMonth(leap, from + 1) then from else MonthOf(day, leap, from + 1)
  }

  datatype Civil = Civil(year: nat, month: nat, day: nat, hour: nat, minute: nat, second: nat)

  function MonthDays(leap: bool, m: nat): nat {
    if m == 2 then (if leap then 29 else 28) else if m in {4, 6, 9, 11} then 30 else 31
  }

  predicate Regular(c: Civil) {
    && c.year < 10000 && 1 <= c.month <= 12 && 1 <= c.day <= MonthDays(Leap(c.year), c.month)
    && c.hour < 24 && c.minute < 60 && c.second < 60
  }

  lemma SecondsOf(k: nat, s: nat)
    requires s < 60
    ensures (60 * k + s) % 60 == s
  {
  }

  lemma ClockFields(time: nat)
    requires time < DAY
    ensures time / 3600 < 24 && time % 3600 / 60 < 60
    ensures time == time / 3600 * 3600 + time % 3600 / 60 * 60 + time % 60
  {
    var h, r := time / 3600, time % 3600;
    var m, s := r / 60, r % 60;
    assert time == 3600 * h + r && r == 60 * m + s;
    SecondsOf(60 * h + m, s);
    assert time == 60 * (60 * h + m) + s;
  }

  function DayNumber(year: nat, month: nat, day: nat): int
    requires 1 <= month <= 12
  {
    DaysBeforeYear(year) + DaysBeforeMonth(Leap(year), month) + day - 1
  }

  lemma MonthLength(leap: bool, m: nat)
    requires 1 <= m <= 12
    ensures DaysBeforeMonth(leap, m + 1) == DaysBeforeMonth(leap, m) + MonthDays(leap, m)
  {
  }

  lemma MonthFloor(n: nat, leap: bool)
    requires n < DaysBeforeMonth(leap, 13)
    ensures 1 <= n / 32 + 1 <= 12 && DaysBeforeMonth(leap, n / 32 + 1) <= n
  {
    var m := n / 32;
    assert 32 * m <= n < 32 * m + 32;
    assert DaysBeforeMonth(leap, m + 1) <= 32 * m;
  }

  lemma DayInMonth(n: nat, leap: bool, m: nat)
    requires 1 <= m <= 12 && DaysBeforeMonth(leap, m) <= n < DaysBeforeMonth(leap, m + 1)
    ensures n - DaysBeforeMonth(leap, m) < MonthDays(leap, m)
  {
    MonthLength(leap, m);
  }

  /** The month and the day of the month of a day of a year. */
  function DayOfYear(n: nat, leap: bool): (r: (nat, nat))
    requires n < DaysBeforeMonth(leap, 13)
    ensures 1 <= r.0 <= 12 && 1 <= r.1 <= MonthDays(leap, r.0) && DaysBeforeMonth(leap, r.0) + r.1 - 1 == n
  {
    MonthFloor(n, leap);
    var month := MonthOf(n, leap, n / 32 + 1);
    DayInMonth(n, leap, month);
    (month, n - DaysBeforeMonth(leap, month) + 1)
  }

  function Date(n: nat): (r: (nat, nat, nat))
    requires n < DaysBeforeYear(10000)
    ensures r.0 < 10000 && 1 <= r.1 <= 12 && 1 <= r.2 <= MonthDays(Leap(r.0), r.1) && DayNumber(r.0, r.1, r.2) == n
  {
    YearFloor(n);
    var year := YearOf(n, n / 366);
    YearLength(year);
    var (month, day) := DayOfYear(n - DaysBeforeYear(year), Leap(year));
    (year, month, day)
  }

  /** Seconds since the Unix epoch on the local clock to calendar fields. */
  function ToCivil(seconds: int): (c: Civil)
    requires 0 <= seconds / DAY + EPOCH < DaysBeforeYear(10000)
    ensures Regular(c) && FromCivil(c) == seconds
  {
    var (year, month, day) := Date(seconds / DAY + EPOCH);
    var time := seconds % DAY;
    ClockFields(time);
    Civil(year, month, day, time / 3600, time % 3600 / 60, time % 60)
  }

  function FromCivil(c: Civil): int
    requires 1 <= c.month <= 12
  {
    (DayNumber(c.year, c.month, c.day) - EPOCH) * DAY + c.hour * 3600 + c.minute * 60 + c.second
  }

  // ----- Text -----

  function Two(n: nat): (s: string)
    requires n < 100
    ensures |s| == 2
  {
    [Digit(n / 10), Digit(n % 10)]
  }

  function CivilText(c: Civil): (s: string)
    requires Regular(c)
    ensures |s| == 19
  {
    Two(c.year / 100) + Two(c.year % 100) + "-" + Two(c.month) + "-" + Two(c.day) + "T" +
    Two(c.hour) + ":" + Two(c.minute) + ":" + Two(c.second)
  }

  function Power(w: nat): (p: nat)
    ensures p > 0
  {
    if w == 0 then 1 else 10 * Power(w - 1)
  }

  /** The digits of n / 10^w after the point, without trailing zeros. */
  function FractionDigits(n: nat, w: nat): (s: string)
    requires n < Power(w)
    ensures forall i :: 0 <= i < |s| ==> IsDigit(s[i])
    ensures |s| <= w && (s == "" <==> n == 0)
  {
    if n == 0 then ""
    else
      FirstDigit(n, Power(w - 1));
      [Digit(n / Power(w - 1))] + FractionDigits(n % Power(w - 1), w - 1)
  }

  lemma FirstDigit(n: nat, p: nat)
    requires 0 < p && n < 10 * p
    ensures 0 <= n / p < 10
  {
  }

  lemma DivMod(n: nat, p: nat)
    requires 0 < p
    ensures n / p * p + n % p == n
  {
  }

  function FractionText(n: nat, w: nat): string
    requires n < Power(w)
  {
    if n == 0 then "" else "." + FractionDigits(n, w)
  }

  function ZoneText(zone: int): (s: string)
    requires -1440 < zone < 1440
    ensures s != "" && !IsDigit(s[0]) && s[0] != '.'
  {
    if zone == 0 then "Z"
    else
      var m := if zone < 0 then -zone else zone;
      (if zone < 0 then "-" else "+") + Two(m / 60) + ":" + Two(m % 60)
  }

  function TextOf(c: Civil, fraction: nat, w: nat, zone: int): string
    requires Regular(c) && fraction < Power(w) && -1440 < zone < 1440
  {
    CivilText(c) + (FractionText(fraction, w) + ZoneText(zone))
  }

  function LocalNanos(t: Timestamp): int {
    t.nanos + t.zone * 60 * SECOND
  }

  /** The year has four digits and the zone is less than a day from UTC; otherwise Go refuses to marshal. */
  predicate Encodable(t: Timestamp) {
    0 <= LocalNanos(t) / SECOND / DAY + EPOCH < DaysBeforeYear(10000) && -1440 < t.zone < 1440
  }

  lemma NinePlaces()
    ensures Power(9) == SECOND
  {
    assert Power(3) == 1000;
    assert Power(5) == 100 * Power(3);
    assert Power(7) == 100 * Power(5);
    assert Power(9) == 100 * Power(7);
  }

  function TimeTextIn(t: Timestamp, w: nat): string
    requires Encodable(t) && Power(w) == SECOND
  {
    TextOf(ToCivil(LocalNanos(t) / SECOND), LocalNanos(t) % SECOND, w, t.zone)
  }

  function TimeText(t: Timestamp): string
    requires Encodable(t)
  {
    NinePlaces();
    TimeTextIn(t, 9)
  }

  /** Time.MarshalJSON: an error when RFC 3339 cannot hold the instant. */
  function WriteTime(t: Timestamp): Option<string> {
    if Encodable(t) then Some(TimeText(t)) else None
  }

  // ----- Reading -----

  function TwoValue(s: string): int
    requires |s| == 2
  {
    if IsDigit(s[0]) && IsDigit(s[1]) then (s[0] as int - '0' as int) * 10 + (s[1] as int - '0' as int) else -1
  }

  function ReadCivil(s: string): (r: Option<Civil>)
    requires |s| == 19
    ensures r.Some? ==> Regular(r.value)
  {
    var a, b, m, d := TwoValue(s[0..2]), TwoValue(s[2..4]), TwoValue(s[5..7]), TwoValue(s[8..10]);
    var h, n, c := TwoValue(s[11..13]), TwoValue(s[14..16]), TwoValue(s[17..19]);
    if a < 0 || b < 0 || m < 0 || d < 0 || h < 0 || n < 0 || c < 0
      || s[4] != '-' || s[7] != '-' || s[10] != 'T' || s[13] != ':' || s[16] != ':' then None
    else
      var civil := Civil(a * 100 + b, m, d, h, n, c);
      if Regular(civil) then Some(civil) else None
  }

  function FractionValue(s: string, w: nat): int
    requires |s| <= w && forall i :: 0 <= i < |s| ==> IsDigit(s[i])
  {
    if s == "" then 0 else
    assert IsDigit(s[0]);
    (s[0] as int - '0' as int) * Power(w - 1) + FractionValue(s[1..], w - 1)
  }

  function ReadZone(s: string): Option<int> {
    if s == "Z" then Some(0)
    else if |s| == 6 && s[0] in "+-" && s[3] == ':' && 0 <= TwoValue(s[1..3]) < 24 && 0 <= TwoValue(s[4..6]) < 60 then
      var m := TwoValue(s[1..3]) * 60 + TwoValue(s[4..6]);
      Some(if s[0] == '-' then -m else m)
    else None
  }

  /** A fraction in units of 10^-w, digits beyond the first w ignored, and a zone in minutes. */
  function ReadRest(s: string, w: nat): Option<(int, int)> {
    if s == "" || s[0] != '.' then
      match ReadZone(s)
      case None => None
      case Some(zone) => Some((0, zone))
    else
      var n := Digits(s[1..]);
      if n == 0 then None
      else
        var ds := s[1..][..if n > w then w else n];
        match ReadZone(s[1..][n..])
        case None => None
        case Some(zone) => Some((FractionValue(ds, w), zone))
  }

  function ReadParts(s: string, w: nat): (r: Option<(Civil, int, int)>)
    ensures r.Some? ==> Regular(r.value.0)
  {
    if |s| < 19 then None
    else
      match (ReadCivil(s[..19]), ReadRest(s[19..], w))
      case (Some(civil), Some((fraction, zone))) => Some((civil, fraction, zone))
      case _ => None
  }

  function ReadTimeIn(s: string, w: nat): Option<Timestamp> {
    match ReadParts(s, w)
    case None => None
    case Some((civil, fraction, zone)) =>
      Some(Timestamp(FromCivil(civil) * SECOND + fraction - zone * 60 * SECOND, zone))
  }

  function ReadTime(s: string): Option<Timestamp> {
    ReadTimeIn(s, 9)
  }

  // ----- Reading undoes writing -----

  lemma TwoReads(n: nat)
    requires n < 100
    ensures TwoValue(Two(n)) == n
  {
  }

  lemma CivilReads(c: Civil)
    requires Regular(c)
    ensures ReadCivil(CivilText(c)) == Some(c)
  {
    var s := CivilText(c);
    assert s[0..2] == Two(c.year / 100) && s[2..4] == Two(c.year % 100);
    assert s[5..7] == Two(c.month) && s[8..10] == Two(c.day);
    assert s[11..13] == Two(c.hour) && s[14..16] == Two(c.minute) && s[17..19] == Two(c.second);
    TwoReads(c.year / 100); TwoReads(c.year % 100); TwoReads(c.month); TwoReads(c.day);
    TwoReads(c.hour); TwoReads(c.minute); TwoReads(c.second);
  }

  lemma {:induction false} FractionReads(n: nat, w: nat)
    requires n < Power(w)
    ensures FractionValue(FractionDigits(n, w), w) == n
  {
    if n > 0 {
      var p := Power(w - 1);
      FirstDigit(n, p);
      FractionReads(n % p, w - 1);
      var s := FractionDigits(n, w);
      assert s[1..] == FractionDigits(n % p, w - 1) && s[0] as int - '0' as int == n / p;
      DivMod(n, p);
    }
  }

  lemma ZoneReads(zone: int)
    requires -1440 < zone < 1440
    ensures ReadZone(ZoneText(zone)) == Some(zone)
  {
    if zone != 0 {
      var m := if zone < 0 then -zone else zone;
      var s := ZoneText(zone);
      assert s[1..3] == Two(m / 60) && s[4..6] == Two(m % 60);
      TwoReads(m / 60);
      TwoReads(m % 60);
    }
  }

  lemma ReadFraction(ds: string, w: nat, zone: string, minutes: int)
    requires 0 < |ds| <= w && forall i :: 0 <= i < |ds| ==> IsDigit(ds[i])
    requires zone != "" && !IsDigit(zone[0]) && ReadZone(zone) == Some(minutes)
    ensures ReadRest("." + ds + zone, w) == Some((FractionValue(ds, w), minutes))
  {
    var s := "." + ds + zone;
    assert s[1..] == ds + zone;
    DigitsOf(ds, zone);
    assert s[1..][..|ds|] == ds && s[1..][|ds|..] == zone;
  }

  lemma RestReads(fraction: nat, w: nat, zone: int)
    requires fraction < Power(w) && -1440 < zone < 1440
    ensures ReadRest(FractionText(fraction, w) + ZoneText(zone), w) == Some((fraction, zone))
  {
    ZoneReads(zone);
    if fraction == 0 {
      assert "" + ZoneText(zone) == ZoneText(zone);
    } else {
      FractionReads(fraction, w);
      ReadFraction(FractionDigits(fraction, w), w, ZoneText(zone), zone);
    }
  }

  lemma PartsRead(c: Civil, fraction: nat, w: nat, zone: int)
    requires Regular(c) && fraction < Power(w) && -1440 < zone < 1440
    ensures ReadParts(TextOf(c, fraction, w, zone), w) == Some((c, fraction, zone))
  {
    var s := TextOf(c, fraction, w, zone);
    assert s[..19] == CivilText(c) && s[19..] == FractionText(fraction, w) + ZoneText(zone);
    CivilReads(c);
    RestReads(fraction, w, zone);
  }

  /** The parts of a timestamp put together again. */
  lemma PartsTell(s: string, w: nat, t: Timestamp, c: Civil, seconds: int, fraction: nat)
    requires ReadParts(s, w) == Some((c, fraction, t.zone)) && Regular(c) && FromCivil(c) == seconds
    requires seconds * SECOND + fraction == LocalNanos(t)
    ensures ReadTimeIn(s, w) == Some(t)
  {
  }

  lemma TimeReadsIn(t: Timestamp, w: nat)
    requires Encodable(t) && Power(w) == SECOND
    ensures ReadTimeIn(TimeTextIn(t, w), w) == Some(t)
  {
    var local := LocalNanos(t);
    var seconds, fraction := local / SECOND, local % SECOND;
    var c := ToCivil(seconds);
    PartsRead(c, fraction, w, t.zone);
    PartsTell(TimeTextIn(t, w), w, t, c, seconds, fraction);
  }

  /** Every timestamp that can be written is read back exactly, zone included. */
  lemma TimeReads(t: Timestamp)
    requires Encodable(t)
    ensures ReadTime(TimeText(t)) == Some(t)
  {
    NinePlaces();
    TimeReadsIn(t, 9);
  }
}
