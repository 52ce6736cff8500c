/**
 * The text comparison by which do_updatedb finds the certificates that have
 * expired, and for which expiry dates it is right.
 */
module Expiry {
  import opened CStrings
  import opened Times

  // ----- the expiry test -----

  /** strncmp(s, "49", 2) <= 0 */
  predicate Is20xx(s: string) {
    Compare(if |s| <= 2 then s else s[..2], "49") <= 0
  }

  /** The test do_updatedb makes on the text of a V row's expiry and of the present. */
  predicate CountsAsExpired(expiry: string, now: string) {
    if Is20xx(expiry) == Is20xx(now) then Compare(expiry, now) <= 0
    else !Is20xx(expiry)
  }

  lemma {:induction false} CompareFirst(a: string, b: string, u: string, v: string)
    requires |a| == |b|
    ensures Compare(a + u, b + v) == if a == b then Compare(u, v) else Compare(a, b)
  {
    if a == "" {
      assert a + u == u && b + v == v;
    } else {
      assert a == [a[0]] + a[1..] && b == [b[0]] + b[1..];
      assert (a + u)[1..] == a[1..] + u && (b + v)[1..] == b[1..] + v;
      CompareFirst(a[1..], b[1..], u, v);
    }
  }

  /** Two-digit texts compare as the numbers they show. */
  lemma CompareTwoDigits(m: nat, n: nat, u: string, v: string)
    requires m <= 99 && n <= 99
    ensures m < n ==> Compare(TwoDigits(m) + u, TwoDigits(n) + v) < 0
    ensures m > n ==> Compare(TwoDigits(m) + u, TwoDigits(n) + v) > 0
    ensures m == n ==> Compare(TwoDigits(m) + u, TwoDigits(n) + v) == Compare(u, v)
  {
    CompareFirst(TwoDigits(m), TwoDigits(n), u, v);
    TwoDigitsAt(m);
    TwoDigitsAt(n);
    var a, b := TwoDigits(m), TwoDigits(n);
    CompareZero(a, b);
    assert Compare(a[1..], b[1..]) == if a[1] < b[1] then -1 else if b[1] < a[1] then 1 else 0;
  }

  /** Texts compare field by field, if what follows the minutes compares as the seconds do. */
  lemma CompareFields(a: Instant, b: Instant, u: string, v: string)
    requires a.Fits() && b.Fits()
    requires Compare(u, v) <= 0 <==> a.second <= b.second
    ensures Compare(FourText(a, u), FourText(b, v)) <= 0 <==> a.RestAtOrBefore(b)
  {
    hide TwoDigits, Compare;
    var a4, b4 := TwoDigits(a.minute) + u, TwoDigits(b.minute) + v;
    var a3, b3 := TwoDigits(a.hour) + a4, TwoDigits(b.hour) + b4;
    var a2, b2 := TwoDigits(a.day) + a3, TwoDigits(b.day) + b3;
    CompareTwoDigits(a.minute, b.minute, u, v);
    CompareTwoDigits(a.hour, b.hour, a4, b4);
    CompareTwoDigits(a.day, b.day, a3, b3);
    CompareTwoDigits(a.month, b.month, a2, b2);
  }

  lemma Is20xxText(n: nat, rest: string)
    requires n <= 99
    ensures Is20xx(TwoDigits(n) + rest) <==> n <= 49
  {
    var s := TwoDigits(n) + rest;
    assert (if |s| <= 2 then s else s[..2]) == TwoDigits(n) + "";
    assert TwoDigits(49) + "" == "49";
    CompareTwoDigits(n, 49, "", "");
    CompareZero("", "");
  }

  /** The test on two texts that begin with two-digit numbers. */
  lemma ExpiredByNumbers(m: nat, n: nat, u: string, v: string)
    requires m <= 99 && n <= 99
    ensures CountsAsExpired(TwoDigits(m) + u, TwoDigits(n) + v) <==>
              if (m <= 49) == (n <= 49) then m < n || (m == n && Compare(u, v) <= 0) else m > 49
  {
    Is20xxText(m, u);
    Is20xxText(n, v);
    CompareTwoDigits(m, n, u, v);
  }

  /** The test on a text laid out like a UTCTime down to the minutes. */
  lemma ExpiredByFields(yy: nat, t: Instant, tail: string, now: Instant)
    requires yy <= 99 && t.Fits() && t.year == Pivot(yy) && now.IsUtc()
    requires Compare(tail, TwoDigits(now.second) + "Z") <= 0 <==> t.second <= now.second
    ensures CountsAsExpired(TwoDigits(yy) + FourText(t, tail), UtcText(now)) <==> t.AtOrBefore(now)
  {
    hide CountsAsExpired, TwoDigits, Compare, FourText, Instant.RestAtOrBefore;
    var n := now.year % 100;
    assert now.year == Pivot(n);
    UtcTextIs(now);
    ExpiredByNumbers(yy, n, FourText(t, tail), FourText(now, TwoDigits(now.second) + "Z"));
    CompareFields(t, now, tail, TwoDigits(now.second) + "Z");
  }

  lemma UtcTextIs(t: Instant)
    requires t.Valid()
    ensures UtcText(t) == TwoDigits(t.year % 100) + FourText(t, TwoDigits(t.second) + "Z")
  {
  }

  // ----- what the test takes an expiry date for -----

  /**
   * The date do_updatedb takes an expiry text for: it reads six two-digit
   * numbers as YYMMDDHHMMSS whatever they are. Where a zone follows the minutes
   * at once, Z sorts after every second and a sign before every one.
   */
  function ReadAs(s: string): (t: Instant)
    ensures t.Fits() && 1950 <= t.year < 2050
  {
    Instant(Pivot(Number(s, 0)), Number(s, 2), Number(s, 4), Number(s, 6), Number(s, 8),
            if IsDigit(At(s, 10)) then Number(s, 10) else if At(s, 10) == 'Z' then 60 else 0)
  }

  ghost predicate DigitsTo(s: string, n: nat) {
    n <= |s| && forall i :: 0 <= i < n ==> IsDigit(s[i])
  }

  /** What can follow the first ten characters of an accepted time. */
  lemma Layout(s: string)
    requires TimeOk(s)
    ensures DigitsTo(s, 10)
    ensures !IsDigit(At(s, 10)) ==> s[10..] == "Z" || At(s, 10) == '+' || At(s, 10) == '-'
    ensures IsDigit(At(s, 10)) ==> DigitsTo(s, 12) && (|s| == 12 || s[12..] == "Z" || s[12] < 'Z')
  {
    if UtcTimeOk(s) {
      UtcLayout(s);
    } else {
      GeneralizedLayout(s);
    }
  }

  lemma UtcLayout(s: string)
    requires UtcTimeOk(s)
    ensures DigitsTo(s, 10)
    ensures !IsDigit(At(s, 10)) ==> s[10..] == "Z" || At(s, 10) == '+' || At(s, 10) == '-'
    ensures IsDigit(At(s, 10)) ==> DigitsTo(s, 12) && (|s| == 12 || s[12..] == "Z" || s[12] < 'Z')
  {
    hide FieldOk, FieldsEnd, UtcTimeOk, Number;
    UtcTimeFields(s);
    FieldRange(s, 0, 0, 99);
    FieldRange(s, 2, 1, 12);
    FieldRange(s, 4, 1, 31);
    FieldRange(s, 6, 0, 23);
    FieldRange(s, 8, 0, 59);
    if !StartsZone(At(s, 10)) {
      FieldRange(s, 10, 0, 59);
    }
  }

  lemma GeneralizedLayout(s: string)
    requires GeneralizedTimeOk(s)
    ensures DigitsTo(s, 12) && (s[12..] == "Z" || s[12] < 'Z')
  {
    hide FieldOk, FieldsEnd, Number;
    FieldsRange(s, 4);
    FieldRange(s, 0, 0, 99);
    FieldRange(s, 2, 0, 99);
    FieldRange(s, 4, 1, 12);
    FieldRange(s, 6, 1, 31);
    FieldRange(s, 8, 0, 23);
    FieldRange(s, 10, 0, 59);
    if !StartsZone(At(s, 12)) {
      FieldRange(s, 12, 0, 59);
    }
  }

  lemma FiveFields(s: string)
    requires DigitsTo(s, 10)
    ensures s == TwoDigits(Number(s, 0)) + FourText(ReadAs(s), s[10..])
  {
    hide TwoDigits, Number;
    FieldSplit(s, 0);
    FieldSplit(s, 2);
    FieldSplit(s, 4);
    FieldSplit(s, 6);
    FieldSplit(s, 8);
    assert s[0..] == s;
  }

  /** What follows the minutes compares as the seconds ReadAs finds. */
  lemma CompareTail(s: string, second: nat)
    requires DigitsTo(s, 10) && second <= 59
    requires !IsDigit(At(s, 10)) ==> s[10..] == "Z" || At(s, 10) == '+' || At(s, 10) == '-'
    requires IsDigit(At(s, 10)) ==> DigitsTo(s, 12) && (|s| == 12 || s[12..] == "Z" || s[12] < 'Z')
    ensures Compare(s[10..], TwoDigits(second) + "Z") <= 0 <==> ReadAs(s).second <= second
  {
    TwoDigitsAt(second);
    if IsDigit(At(s, 10)) {
      TwoDigitsOf(s, 10);
      assert s[10..] == s[10..12] + s[12..];
      CompareTwoDigits(Number(s, 10), second, s[12..], "Z");
      CompareZero("Z", "Z");
    }
  }

  /**
   * On every expiry text that loads, of either kind and with or without seconds,
   * fraction and zone, do_updatedb is chronological about the date it takes the
   * text for.
   */
  lemma ExpiryReads(s: string, now: Instant)
    requires TimeOk(s) && now.IsUtc()
    ensures CountsAsExpired(s, UtcText(now)) <==> ReadAs(s).AtOrBefore(now)
  {
    hide CountsAsExpired, UtcText, TimeOk, Number, ReadAs, FourText, IsDigit, Compare, TwoDigits;
    Layout(s);
    FiveFields(s);
    CompareTail(s, now.second);
    ReadAsYear(s);
    ExpiredByFields(Number(s, 0), ReadAs(s), s[10..], now);
  }

  lemma ReadAsYear(s: string)
    ensures ReadAs(s).year == Pivot(Number(s, 0))
  {
  }

  // ----- for which dates the test is right -----

  /**
   * `now` lies between the date an expiry text says and the one it is taken for,
   * so that the row is marked too late or too early.
   */
  predicate Misjudged(s: string, now: Instant)
    requires TimeOk(s)
  {
    var read := ReadAs(s);
    if DateOf(s).AtOrBefore(read) then HasCome(s, now) && !read.AtOrBefore(now)
    else read.AtOrBefore(now) && !HasCome(s, now)
  }

  lemma OrderIsTransitive(a: Instant, b: Instant, c: Instant)
    ensures a.AtOrBefore(b) && b.AtOrBefore(c) ==> a.AtOrBefore(c)
    ensures a.AtOrBefore(b) || b.AtOrBefore(a)
    ensures a.AtOrBefore(b) && b.AtOrBefore(a) ==> a == b
  {
  }

  /** The date of a GeneralizedTime is never the one it is taken for. */
  lemma GeneralizedIsMisread(s: string)
    requires TimeOk(s) && !UtcTimeOk(s)
    ensures DateOf(s) != ReadAs(s)
  {
    hide FieldOk, FieldsEnd, ZoneEnd, Number, UtcTimeOk, Zone;
    FieldsRange(s, 4);
    FieldRange(s, 4, 1, 12);
    ZoneInRange(s);
    ShiftStaysNear(Written(s), -Zone(s));
  }

  lemma ShiftStaysNear(t: Instant, minutes: int)
    requires -1440 < minutes < 1440 && t.month <= 12
    ensures var r := Shifted(t, minutes); r.month <= 12 && t.year - 1 <= r.year <= t.year + 1
  {
  }

  /** The test is right about every expiry text that loads, except between the two dates. */
  lemma ExpiryIsRightIff(s: string, now: Instant)
    requires TimeOk(s) && now.IsUtc()
    ensures (CountsAsExpired(s, UtcText(now)) <==> HasCome(s, now)) <==> !Misjudged(s, now)
  {
    hide CountsAsExpired, UtcText, TimeOk, UtcTimeOk, ReadAs, DateOf, Instant.AtOrBefore;
    ExpiryReads(s, now);
    OrderIsTransitive(DateOf(s), ReadAs(s), now);
    OrderIsTransitive(ReadAs(s), DateOf(s), now);
    OrderIsTransitive(now, ReadAs(s), DateOf(s));
    OrderIsTransitive(now, DateOf(s), ReadAs(s));
    if !UtcTimeOk(s) {
      GeneralizedIsMisread(s);
    }
  }

  /** The test is right about a text at every time the clock can show. */
  ghost predicate AlwaysRight(s: string)
    requires TimeOk(s)
  {
    forall now: Instant :: now.IsUtc() ==> (CountsAsExpired(s, UtcText(now)) <==> HasCome(s, now))
  }

  /** A UTCTime at zone zero that is not cut short by a Z after the minutes. */
  predicate ReadAsMeant(s: string) {
    UtcTimeOk(s) && |s| != 11 && Zone(s) == 0
  }

  /** On these the two-flag comparison is chronological, under the year-50 pivot. */
  lemma ExpiryIsChronological(s: string, now: Instant)
    requires ReadAsMeant(s) && now.IsUtc()
    ensures CountsAsExpired(s, UtcText(now)) <==> Written(s).AtOrBefore(now)
  {
    hide CountsAsExpired, UtcText, UtcTimeOk, Number, Zone;
    ExpiryReads(s, now);
    UtcReadAs(s);
  }

  /** In particular on the dates ca prints. */
  lemma ExpiryOfInstant(expiry: Instant, now: Instant)
    requires expiry.IsUtc() && now.IsUtc()
    ensures CountsAsExpired(UtcText(expiry), UtcText(now)) <==> expiry.AtOrBefore(now)
  {
    hide CountsAsExpired, TwoDigits;
    var n := expiry.year % 100;
    assert expiry.year == Pivot(n);
    hide UtcText;
    UtcTextIs(expiry);
    CompareTwoDigits(expiry.second, now.second, "Z", "Z");
    CompareZero("Z", "Z");
    ExpiredByFields(n, expiry, TwoDigits(expiry.second) + "Z", now);
  }

  /** What a UTCTime is taken for: what it says, but for the zone and for seconds left out before a Z. */
  lemma UtcReadAs(s: string)
    requires UtcTimeOk(s)
    ensures ReadAs(s) == Written(s).(second := if |s| == 11 then 60 else Written(s).second)
    ensures |s| == 11 ==> Zone(s) == 0 && Written(s).second == 0
  {
    hide FieldOk, Number;
    UtcTimeFields(s);
    FieldRange(s, 6, 0, 23);
    if StartsZone(At(s, 10)) {
      NotDigit(s, 10);
    } else {
      FieldRange(s, 10, 0, 59);
    }
  }

  lemma UnshiftedIsWritten(s: string)
    requires UtcTimeOk(s) && Zone(s) == 0
    ensures DateOf(s) == Written(s)
  {
    hide UtcTimeOk, Number, Zone;
    WrittenIsUtc(s);
  }

  /** Going back from a date gives an earlier one, going forward a later one. */
  lemma ShiftIsOrdered(t: Instant, minutes: int)
    requires t.Valid() && -1440 < minutes < 1440
    ensures var r := Shifted(t, minutes);
            && (minutes < 0 ==> !t.AtOrBefore(r)) && (minutes > 0 ==> !r.AtOrBefore(t))
            && 1 <= r.month <= 12 && 1 <= r.day <= 31 && r.hour <= 23 && r.minute <= 59 && r.second <= 59
  {
  }

  /**
   * Of the UTCTimes that load, the test is always right about exactly those at
   * zone zero that are not cut short by a Z after the minutes; one oddity apart,
   * whose date comes before every time the clock can show and which is taken for
   * the first of them.
   */
  lemma UtcAlwaysRightIff(s: string)
    requires UtcTimeOk(s)
    ensures AlwaysRight(s) <==> ReadAsMeant(s) || (Zone(s) > 0 && Written(s) == FIRST_UTC)
  {
    hide CountsAsExpired, UtcText, UtcTimeOk, Number, Zone, Shifted, ReadAs, Written;
    var read, date := ReadAs(s), DateOf(s);
    UtcReadAs(s);
    WrittenIsUtc(s);
    ZoneInRange(s);
    ShiftIsOrdered(Written(s), -Zone(s));
    if Zone(s) == 0 {
      UnshiftedIsWritten(s);
    }
    forall now: Instant | now.IsUtc()
      ensures CountsAsExpired(s, UtcText(now)) <==> read.AtOrBefore(now)
    {
      ExpiryReads(s, now);
    }
    if |s| == 11 {
      assert HasCome(s, Written(s)) && !read.AtOrBefore(Written(s));
    } else if Zone(s) < 0 {
      assert read.AtOrBefore(read) && !HasCome(s, read);
    } else if Zone(s) > 0 && read != FIRST_UTC {
      var now := if date.IsUtc() then date else FIRST_UTC;
      assert now.IsUtc() && HasCome(s, now) && !read.AtOrBefore(now);
    }
  }

  /** What the digits of a GeneralizedTime are taken for: the century for the year, and every field for the next. */
  function Misread(t: Instant): Instant
    requires t.Valid()
  {
    Instant(Pivot(t.year / 100), t.year % 100, t.month, t.day, t.hour, t.minute)
  }

  lemma GeneralizedFields(t: Instant)
    requires t.Valid()
    ensures var s := GeneralizedText(t);
            && TimeOk(s) && !UtcTimeOk(s)
            && ReadAs(s) == Misread(t) && Written(s) == DateOf(s) == t && !HasFraction(s)
  {
    var s := GeneralizedText(t);
    GeneralizedTextIsGeneralizedTime(t);
    GeneralizedTextIsNotUtcTime(t);
    hide FieldOk, FieldsEnd, ZoneEnd, UtcTimeOk, TimeOk, GeneralizedTimeOk;
    GeneralizedNumbers(t);
    RestTextHasNo(t, '.');
    assert '.' !in s;
  }

  lemma GeneralizedNumbers(t: Instant)
    requires t.Valid()
    ensures var s := GeneralizedText(t);
            && 100 * Number(s, 0) + Number(s, 2) == t.year && Number(s, 0) == t.year / 100 &&
                 Number(s, 2) == t.year % 100
            && Number(s, 4) == t.month && Number(s, 6) == t.day && Number(s, 8) == t.hour
            && Number(s, 10) == t.minute && Number(s, 12) == t.second
            && IsDigit(At(s, 10)) && s[14] == 'Z' && IsDigit(At(s, 13))
  {
  }

  /**
   * The test on a date printed as a GeneralizedTime. Up to 2020 a row is never
   * marked too early but may be marked too late; from 2021 on it is the other
   * way round.
   */
  lemma GeneralizedExpiry(expiry: Instant, now: Instant)
    requires expiry.Valid() && now.IsUtc()
    ensures CountsAsExpired(GeneralizedText(expiry), UtcText(now)) <==> Misread(expiry).AtOrBefore(now)
    ensures (CountsAsExpired(GeneralizedText(expiry), UtcText(now)) <==> expiry.AtOrBefore(now)) <==>
              if expiry.year <= 2020 then expiry.AtOrBefore(now) ==> Misread(expiry).AtOrBefore(now)
              else Misread(expiry).AtOrBefore(now) ==> expiry.AtOrBefore(now)
  {
    hide CountsAsExpired, UtcText, GeneralizedText;
    GeneralizedFields(expiry);
    ExpiryReads(GeneralizedText(expiry), now);
    OrderIsTransitive(expiry, Misread(expiry), now);
    OrderIsTransitive(Misread(expiry), expiry, now);
  }

  /** The parts of an accepted GeneralizedTime, of its date and of what it is taken for. */
  lemma GeneralizedParts(s: string)
    requires TimeOk(s) && !UtcTimeOk(s)
    ensures var said, date, read := Written(s), DateOf(s), ReadAs(s);
            && 0 <= said.year <= 9999 && 1 <= said.month <= 12
            && read.year == Pivot(said.year / 100) && read.month == said.year % 100 && read.day == said.month
            && said.year - 1 <= date.year <= said.year + 1
            && 1 <= date.month <= 12 && 1 <= date.day <= 31 && date.hour <= 23 && date.minute <= 59 && date.second <= 59
  {
    hide FieldOk, FieldsEnd, ZoneEnd, Number, UtcTimeOk, Zone, Shifted;
    FieldsRange(s, 4);
    FieldRange(s, 4, 1, 12);
    FieldRange(s, 6, 1, 31);
    FieldRange(s, 8, 0, 23);
    FieldRange(s, 10, 0, 59);
    if StartsZone(At(s, 12)) {
      NotDigit(s, 12);
    } else {
      FieldRange(s, 12, 0, 59);
    }
    ZoneInRange(s);
    ShiftStaysNear(Written(s), -Zone(s));
    ShiftIsOrdered(Written(s), -Zone(s));
  }

  const LAST_OF_2020: Instant := Instant(2020, 12, 31, 23, 59, 59)
  const FIRST_OF_2021: Instant := Instant(2021, 1, 1, 0, 0, 0)

  /**
   * Of all the GeneralizedTimes that load, zone and fraction as they may be,
   * there are hardly any about which the test is always right: those that say
   * 4913 to 4999, which are taken for a month past the last of 2049, and those
   * that have come from the first second of 2021 on.
   */
  lemma GeneralizedAlwaysRightIff(s: string)
    requires TimeOk(s) && !UtcTimeOk(s)
    ensures AlwaysRight(s) <==>
              || 4913 <= Written(s).year <= 4999
              || DateOf(s) == if HasFraction(s) then LAST_OF_2020 else FIRST_OF_2021
  {
    hide CountsAsExpired, UtcText, UtcTimeOk, TimeOk, Written, DateOf, ReadAs, HasFraction;
    GeneralizedParts(s);
    var said, date, read := Written(s), DateOf(s), ReadAs(s);
    forall now: Instant | now.IsUtc()
      ensures CountsAsExpired(s, UtcText(now)) <==> read.AtOrBefore(now)
    {
      ExpiryReads(s, now);
    }
    var now :=
      if said.year < 1900 then Instant(1999, 12, 31, 23, 59, 59)
      else if said.year < 2000 then Instant(2018, 12, 31, 23, 59, 59)
      else if said.year <= 2012 then Instant(2019, 12, 31, 23, 59, 59)
      else if said.year < 2100 then if HasCome(s, LAST_OF_2020) then LAST_OF_2020 else FIRST_OF_2021
      else LAST_UTC;
    assert now.IsUtc();
    if 2012 < said.year < 2100 {
      assert forall t: Instant :: t.IsUtc() ==> (read.AtOrBefore(t) <==> t.year >= 2021);
    } else if !(4913 <= said.year <= 4999) {
      assert read.AtOrBefore(now) != HasCome(s, now);
    }
  }

  /** The printed ones among them. */
  lemma PrintedAlwaysRightIff(expiry: Instant)
    requires expiry.Valid()
    ensures TimeOk(GeneralizedText(expiry))
    ensures AlwaysRight(GeneralizedText(expiry)) <==> 4913 <= expiry.year <= 4999 || expiry == FIRST_OF_2021
  {
    hide CountsAsExpired, UtcText, GeneralizedText, AlwaysRight;
    GeneralizedFields(expiry);
    GeneralizedAlwaysRightIff(GeneralizedText(expiry));
  }

  /**
   * Dates that load and are misjudged: one past and not marked, one to come and
   * marked, and the date that section 4.1.2.5 of RFC 5280 gives certificates
   * without an expiry, marked at once.
   */
  lemma GeneralizedExpiryFails()
    ensures var expiry, now := Instant(2010, 1, 1, 0, 0, 0), Instant(2013, 6, 1, 0, 0, 0);
            expiry.AtOrBefore(now) && !CountsAsExpired(GeneralizedText(expiry), UtcText(now))
    ensures var expiry, now := Instant(2150, 1, 1, 0, 0, 0), Instant(2022, 6, 1, 0, 0, 0);
            !expiry.AtOrBefore(now) && CountsAsExpired(GeneralizedText(expiry), UtcText(now))
    ensures forall now: Instant :: now.IsUtc() && now.year >= 2000 ==>
              CountsAsExpired(GeneralizedText(Instant(9999, 12, 31, 23, 59, 59)), UtcText(now))
  {
    hide CountsAsExpired, UtcText, GeneralizedText;
    GeneralizedExpiry(Instant(2010, 1, 1, 0, 0, 0), Instant(2013, 6, 1, 0, 0, 0));
    GeneralizedExpiry(Instant(2150, 1, 1, 0, 0, 0), Instant(2022, 6, 1, 0, 0, 0));
    forall now: Instant | now.IsUtc() && now.year >= 2000
      ensures CountsAsExpired(GeneralizedText(Instant(9999, 12, 31, 23, 59, 59)), UtcText(now))
    {
      GeneralizedExpiry(Instant(9999, 12, 31, 23, 59, 59), now);
    }
  }
}
