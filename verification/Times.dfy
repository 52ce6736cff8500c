/**
 * ASN.1 times as text: what the format checks accept, what the clock prints,
 * and what date an accepted text says.
 */
module Times {
  import opened CStrings
  import opened Options
  import opened Sequences

  // ----- the format checks -----

  predicate IsDigit(c: char) {
    '0' <= c <= '9'
  }

  function Digit(c: char): nat
    requires IsDigit(c)
  {
    c as int - '0' as int
  }

  predicate FieldOk(s: string, o: nat, lo: nat, hi: nat) {
    && IsDigit(At(s, o)) && IsDigit(At(s, o + 1))
    && lo <= 10 * Digit(At(s, o)) + Digit(At(s, o + 1)) <= hi
  }

  /** The smallest and largest month, day, hour, minute and second. */
  const LIMITS: seq<(nat, nat)> := [(1, 12), (1, 31), (0, 23), (0, 59), (0, 59)]

  predicate StartsZone(c: char) {
    c == 'Z' || c == '+' || c == '-'
  }

  /** The end of the two-digit fields from the i-th of LIMITS on; the seconds may be missing. */
  function FieldsEnd(s: string, o: nat, i: nat): Option<nat>
    requires i <= 5
    decreases 5 - i
  {
    if i == 5 || (i == 4 && StartsZone(At(s, o))) then Some(o)
    else if FieldOk(s, o, LIMITS[i].0, LIMITS[i].1) then FieldsEnd(s, o + 2, i + 1)
    else None
  }

  /** The end of the time zone at `o`, if it is well formed. */
  function ZoneEnd(s: string, o: nat): Option<nat> {
    if At(s, o) == 'Z' then Some(o + 1)
    else if At(s, o) == '+' || At(s, o) == '-' then
      if o + 5 <= |s| && FieldOk(s, o + 1, 0, 12) && FieldOk(s, o + 3, 0, 59) then Some(o + 5) else None
    else Some(o)
  }

  /** ASN1_UTCTIME_check */
  predicate UtcTimeOk(s: string) {
    && |s| >= 11
    && FieldOk(s, 0, 0, 99)
    && var fields := FieldsEnd(s, 2, 0);
    && fields.Some?
    && ZoneEnd(s, fields.value) == Some(|s|)
  }

  function DigitsEnd(s: string, o: nat): (e: nat)
    ensures o <= e && (o <= |s| ==> e <= |s|)
    ensures forall i :: o <= i < e ==> IsDigit(At(s, i))
    decreases |s| - o
  {
    if o < |s| && IsDigit(s[o]) then DigitsEnd(s, o + 1) else o
  }

  /** ASN1_GENERALIZEDTIME_check: a four-digit year, perhaps a fraction, always a zone. */
  predicate GeneralizedTimeOk(s: string) {
    && |s| >= 13
    && FieldOk(s, 0, 0, 99) && FieldOk(s, 2, 0, 99)
    && var fields := FieldsEnd(s, 4, 0);
    && fields.Some?
    && var o := if At(s, fields.value) == '.' then DigitsEnd(s, fields.value + 1) else fields.value;
    && (At(s, fields.value) == '.' ==> o > fields.value + 1)
    && StartsZone(At(s, o)) && ZoneEnd(s, o) == Some(|s|)
  }

  /** ASN1_TIME_set_string(NULL, s), which check_time_format calls. */
  predicate TimeOk(s: string) {
    UtcTimeOk(s) || GeneralizedTimeOk(s)
  }

  // ----- instants -----

  datatype Instant = Instant(year: int, month: nat, day: nat, hour: nat, minute: nat, second: nat) {
    predicate Valid() {
      && 0 <= year <= 9999 && 1 <= month <= 12 && 1 <= day <= 31
      && hour <= 23 && minute <= 59 && second <= 59
    }

    /** Every field but the year prints as two digits. */
    predicate Fits() {
      month <= 99 && day <= 99 && hour <= 99 && minute <= 99 && second <= 99
    }

    /** The years a UTCTime can name. */
    predicate IsUtc() {
      Valid() && 1950 <= year < 2050
    }

    /** Chronological order, largest unit first. */
    predicate AtOrBefore(other: Instant) {
      || year < other.year
      || (year == other.year && RestAtOrBefore(other))
    }

    predicate RestAtOrBefore(other: Instant) {
      || month < other.month
      || (month == other.month && (
            || day < other.day
            || (day == other.day && (
                  || hour < other.hour
                  || (hour == other.hour && (
                        || minute < other.minute
                        || (minute == other.minute && second <= other.second)))))))
    }
  }

  /** The first and last instant a UTCTime can name. */
  const FIRST_UTC: Instant := Instant(1950, 1, 1, 0, 0, 0)
  const LAST_UTC: Instant := Instant(2049, 12, 31, 23, 59, 59)

  function TwoDigits(n: nat): (s: string)
    requires n <= 99
    ensures |s| == 2
  {
    [(n / 10 + '0' as int) as char, (n % 10 + '0' as int) as char]
  }

  function RestText(t: Instant): (s: string)
    requires t.Valid()
    ensures |s| == 11
  {
    TwoDigits(t.month) + DayText(t)
  }

  function DayText(t: Instant): (s: string)
    requires t.Valid()
    ensures |s| == 9
  {
    TwoDigits(t.day) + (TwoDigits(t.hour) + (TwoDigits(t.minute) + (TwoDigits(t.second) + "Z")))
  }

  /** YYMMDDHHMMSSZ, as ASN1_UTCTIME_adj prints. */
  function UtcText(t: Instant): (s: string)
    requires t.Valid()
    ensures |s| == 13
  {
    TwoDigits(t.year % 100) + RestText(t)
  }

  /** YYYYMMDDHHMMSSZ, as ASN1_GENERALIZEDTIME_adj prints. */
  function GeneralizedText(t: Instant): (s: string)
    requires t.Valid()
    ensures |s| == 15
  {
    TwoDigits(t.year / 100) + TwoDigits(t.year % 100) + RestText(t)
  }

  /** What X509_gmtime_adj(NULL, 0) holds when the clock shows `t`. */
  function ClockText(t: Instant): string
    requires t.Valid()
  {
    if 1950 <= t.year < 2050 then UtcText(t) else GeneralizedText(t)
  }

  lemma TwoDigitsAt(n: nat)
    requires n <= 99
    ensures var s := TwoDigits(n);
            IsDigit(s[0]) && IsDigit(s[1]) && 10 * Digit(s[0]) + Digit(s[1]) == n
  {
  }

  /** The fields of RestText after any prefix. */
  lemma RestFields(s: string, o: nat, t: Instant)
    requires t.Valid() && o + 11 == |s| && s[o..] == RestText(t)
    ensures FieldsEnd(s, o, 0) == Some(o + 10)
    ensures At(s, o + 10) == 'Z'
  {
    forall k | 0 <= k < 11 ensures At(s, o + k) == RestText(t)[k] {
      assert s[o..][k] == s[o + k];
    }
    TwoDigitsAt(t.month);
    TwoDigitsAt(t.day);
    TwoDigitsAt(t.hour);
    TwoDigitsAt(t.minute);
    TwoDigitsAt(t.second);
    assert At(s, o + 0) == TwoDigits(t.month)[0] && At(s, o + 1) == TwoDigits(t.month)[1];
    assert At(s, o + 2) == TwoDigits(t.day)[0] && At(s, o + 3) == TwoDigits(t.day)[1];
    assert At(s, o + 4) == TwoDigits(t.hour)[0] && At(s, o + 5) == TwoDigits(t.hour)[1];
    assert At(s, o + 6) == TwoDigits(t.minute)[0] && At(s, o + 7) == TwoDigits(t.minute)[1];
    assert At(s, o + 8) == TwoDigits(t.second)[0] && At(s, o + 9) == TwoDigits(t.second)[1];
    assert FieldsEnd(s, o + 8, 4) == Some(o + 10);
    assert FieldsEnd(s, o + 6, 3) == Some(o + 10);
    assert FieldsEnd(s, o + 4, 2) == Some(o + 10);
    assert FieldsEnd(s, o + 2, 1) == Some(o + 10);
  }

  lemma UtcTextIsUtcTime(t: Instant)
    requires t.Valid()
    ensures UtcTimeOk(UtcText(t))
  {
    var s := UtcText(t);
    TwoDigitsAt(t.year % 100);
    assert s[2..] == RestText(t);
    RestFields(s, 2, t);
  }

  lemma GeneralizedTextIsGeneralizedTime(t: Instant)
    requires t.Valid()
    ensures GeneralizedTimeOk(GeneralizedText(t))
  {
    var s := GeneralizedText(t);
    TwoDigitsAt(t.year / 100);
    TwoDigitsAt(t.year % 100);
    assert s[4..] == RestText(t);
    RestFields(s, 4, t);
  }

  lemma {:induction false} UtcTimeLength(s: string)
    requires UtcTimeOk(s)
    ensures |s| != 14 && (|s| == 15 ==> s[10] == '+' || s[10] == '-')
    ensures |s| == 13 ==> s[12] == 'Z' && FieldsEnd(s, 2, 0) == Some(12)
  {
    var e := FieldsEnd(s, 2, 0).value;
    assert FieldsEnd(s, 2, 0) == FieldsEnd(s, 4, 1) == FieldsEnd(s, 6, 2) == FieldsEnd(s, 8, 3) == FieldsEnd(s, 10, 4);
    assert e == 10 || e == 12;
  }

  /** A GeneralizedTime the clock prints never passes for a UTCTime. */
  lemma GeneralizedTextIsNotUtcTime(t: Instant)
    requires t.Valid()
    ensures !UtcTimeOk(GeneralizedText(t))
  {
    var s := GeneralizedText(t);
    TwoDigitsAt(t.minute);
    assert s[10] == TwoDigits(t.minute)[0];
    if UtcTimeOk(s) {
      UtcTimeLength(s);
    }
  }

  /** The clock's text always passes the loader, and is a UTCTime exactly in the years 1950 to 2049. */
  lemma ClockTextKinds(t: Instant)
    requires t.Valid()
    ensures TimeOk(ClockText(t))
    ensures UtcTimeOk(ClockText(t)) <==> t.IsUtc()
  {
    if t.IsUtc() {
      UtcTextIsUtcTime(t);
    } else {
      GeneralizedTextIsGeneralizedTime(t);
      GeneralizedTextIsNotUtcTime(t);
    }
  }

  lemma RestTextHasNo(t: Instant, c: char)
    requires t.Valid() && !IsDigit(c) && c != 'Z'
    ensures c !in RestText(t)
  {
    TwoDigitsAt(t.month);
    TwoDigitsAt(t.day);
    TwoDigitsAt(t.hour);
    TwoDigitsAt(t.minute);
    TwoDigitsAt(t.second);
  }

  lemma ClockTextHasNo(t: Instant, c: char)
    requires t.Valid() && !IsDigit(c) && c != 'Z'
    ensures c !in ClockText(t)
  {
    RestTextHasNo(t, c);
    TwoDigitsAt(t.year / 100);
    TwoDigitsAt(t.year % 100);
  }

  // ----- reading a time back -----

  /** The two-digit number at `o`. */
  function Number(s: string, o: nat): (n: nat)
    ensures n <= 99
  {
    if IsDigit(At(s, o)) && IsDigit(At(s, o + 1)) then 10 * Digit(At(s, o)) + Digit(At(s, o + 1)) else 0
  }

  /** Years 50 to 99 are 19xx and 00 to 49 are 20xx, as section 4.1.2.5.1 of RFC 5280 has it. */
  function Pivot(yy: nat): (year: int)
    ensures yy <= 99 ==> 1950 <= year < 2050
  {
    if yy >= 50 then 1900 + yy else 2000 + yy
  }

  /** The date and time of day that the digits of a UTCTime say; missing seconds are zero. */
  function UtcWritten(s: string): Instant {
    Instant(Pivot(Number(s, 0)), Number(s, 2), Number(s, 4), Number(s, 6), Number(s, 8), Number(s, 10))
  }

  /** Those of a GeneralizedTime. */
  function GeneralizedWritten(s: string): Instant {
    Instant(100 * Number(s, 0) + Number(s, 2), Number(s, 4), Number(s, 6), Number(s, 8), Number(s, 10), Number(s, 12))
  }

  /** Those of an accepted time, which is taken for a UTCTime if it can be. */
  function Written(s: string): Instant {
    if UtcTimeOk(s) then UtcWritten(s) else GeneralizedWritten(s)
  }

  lemma TwoDigitsOf(s: string, o: nat)
    requires o + 2 <= |s| && IsDigit(s[o]) && IsDigit(s[o + 1])
    ensures TwoDigits(Number(s, o)) == s[o..o + 2]
  {
    assert s[o..o + 2] == [s[o], s[o + 1]];
  }

  /** A field that passed its check holds a number in range. */
  lemma FieldRange(s: string, o: nat, lo: nat, hi: nat)
    requires FieldOk(s, o, lo, hi)
    ensures o + 2 <= |s| && IsDigit(s[o]) && IsDigit(s[o + 1]) && lo <= Number(s, o) <= hi
  {
  }

  /** Where the fields after the year end, and that each is in range. */
  lemma {:induction false} FieldsRange(s: string, o: nat)
    requires FieldsEnd(s, o, 0).Some?
    ensures FieldOk(s, o, 1, 12) && FieldOk(s, o + 2, 1, 31) && FieldOk(s, o + 4, 0, 23) && FieldOk(s, o + 6, 0, 59)
    ensures StartsZone(At(s, o + 8)) ==> FieldsEnd(s, o, 0) == Some(o + 8)
    ensures !StartsZone(At(s, o + 8)) ==> FieldsEnd(s, o, 0) == Some(o + 10) && FieldOk(s, o + 8, 0, 59)
  {
    hide FieldOk, StartsZone;
    assert FieldsEnd(s, o, 0) == FieldsEnd(s, o + 2, 1) == FieldsEnd(s, o + 4, 2) == FieldsEnd(s, o + 6, 3)
      == FieldsEnd(s, o + 8, 4);
  }

  /** The other way round. */
  lemma {:induction false} FieldsThere(s: string, o: nat)
    requires FieldOk(s, o, 1, 12) && FieldOk(s, o + 2, 1, 31) && FieldOk(s, o + 4, 0, 23) && FieldOk(s, o + 6, 0, 59)
    ensures StartsZone(At(s, o + 8)) ==> FieldsEnd(s, o, 0) == Some(o + 8)
    ensures !StartsZone(At(s, o + 8)) && FieldOk(s, o + 8, 0, 59) ==> FieldsEnd(s, o, 0) == Some(o + 10)
  {
    hide FieldOk, StartsZone;
    assert FieldsEnd(s, o, 0) == FieldsEnd(s, o + 2, 1) == FieldsEnd(s, o + 4, 2)
        == FieldsEnd(s, o + 6, 3) == FieldsEnd(s, o + 8, 4);
  }

  lemma UtcTimeFields(s: string)
    requires UtcTimeOk(s)
    ensures FieldOk(s, 0, 0, 99) && FieldOk(s, 2, 1, 12) && FieldOk(s, 4, 1, 31) && FieldOk(s, 6, 0, 23) &&
            FieldOk(s, 8, 0, 59)
    ensures StartsZone(At(s, 10)) ==> ZoneEnd(s, 10) == Some(|s|)
    ensures !StartsZone(At(s, 10)) ==> FieldOk(s, 10, 0, 59) && ZoneEnd(s, 12) == Some(|s|)
  {
    hide FieldOk, StartsZone, ZoneEnd;
    FieldsRange(s, 2);
  }

  /** What an accepted UTCTime says is a valid date of the years 1950 to 2049. */
  lemma WrittenIsUtc(s: string)
    requires UtcTimeOk(s)
    ensures Written(s).IsUtc()
  {
    hide FieldOk, Number, UtcTimeOk, ZoneEnd;
    UtcTimeFields(s);
    FieldRange(s, 2, 1, 12);
    FieldRange(s, 4, 1, 31);
    FieldRange(s, 6, 0, 23);
    FieldRange(s, 8, 0, 59);
    if StartsZone(At(s, 10)) {
      NotDigit(s, 10);
    } else {
      FieldRange(s, 10, 0, 59);
    }
  }

  lemma NotDigit(s: string, o: nat)
    requires StartsZone(At(s, o))
    ensures Number(s, o) == 0
  {
  }

  /** Every 13-character UTCTime the check accepts is the text of a valid instant. */
  lemma UtcTimeNamesAnInstant(s: string)
    requires UtcTimeOk(s) && |s| == 13
    ensures Written(s).IsUtc() && UtcText(Written(s)) == s
  {
    hide UtcTimeOk, FieldsEnd, FieldOk, TwoDigits, Number, UtcText, RestText, ZoneEnd;
    UtcTimeFields(s);
    WrittenIsUtc(s);
    ThirteenCharacters(s);
    FieldRange(s, 0, 0, 99);
    FieldRange(s, 2, 1, 12);
    FieldRange(s, 4, 1, 31);
    FieldRange(s, 6, 0, 23);
    FieldRange(s, 8, 0, 59);
    FieldRange(s, 10, 0, 59);
    SixFields(s, Written(s));
  }

  lemma ThirteenCharacters(s: string)
    requires UtcTimeOk(s) && |s| == 13
    ensures !StartsZone(At(s, 10)) && s[12] == 'Z'
  {
    hide FieldOk;
    UtcTimeFields(s);
  }

  /** A text of twelve digits and Z is the print of the numbers in its fields. */
  lemma SixFields(s: string, t: Instant)
    requires |s| == 13 && (forall i :: 0 <= i < 12 ==> IsDigit(s[i])) && s[12] == 'Z' && t.Valid()
    requires t.year % 100 == Number(s, 0) && t.month == Number(s, 2) && t.day == Number(s, 4)
    requires t.hour == Number(s, 6) && t.minute == Number(s, 8) && t.second == Number(s, 10)
    ensures UtcText(t) == s
  {
    hide TwoDigits, Number;
    TwoDigitsOf(s, 0);
    TwoDigitsOf(s, 2);
    TwoDigitsOf(s, 4);
    TwoDigitsOf(s, 6);
    TwoDigitsOf(s, 8);
    TwoDigitsOf(s, 10);
    assert DayText(t) == s[4..];
    assert RestText(t) == s[2..];
  }

  // ----- time zones -----

  function DaysIn(year: int, month: nat): nat {
    if month == 2 then if year % 4 == 0 && (year % 100 != 0 || year % 400 == 0) then 29 else 28
    else if month in {4, 6, 9, 11} then 30 else 31
  }

  function DayBefore(t: Instant): Instant {
    if t.day > 1 then t.(day := t.day - 1)
    else if t.month > 1 then t.(month := t.month - 1, day := DaysIn(t.year, t.month - 1))
    else t.(year := t.year - 1, month := 12, day := 31)
  }

  function DayAfter(t: Instant): Instant {
    if t.day < DaysIn(t.year, t.month) then t.(day := t.day + 1)
    else if t.month < 12 then t.(month := t.month + 1, day := 1)
    else t.(year := t.year + 1, month := 1, day := 1)
  }

  /** The instant some minutes later, or earlier; less than a day. */
  function Shifted(t: Instant, minutes: int): Instant
    requires -1440 < minutes < 1440
  {
    var m := 60 * t.hour + t.minute + minutes;
    if m < 0 then DayBefore(t).(hour := (m + 1440) / 60, minute := (m + 1440) % 60)
    else if m < 1440 then t.(hour := m / 60, minute := m % 60)
    else DayAfter(t).(hour := (m - 1440) / 60, minute := (m - 1440) % 60)
  }

  /** How far, in minutes, the time a text shows is ahead of UTC. */
  function Zone(s: string): (minutes: int)
    ensures -10000 < minutes < 10000
  {
    if |s| < 5 then 0 else
      var o := |s| - 5;
      var minutes := 60 * Number(s, o + 1) + Number(s, o + 3);
      if s[o] == '+' then minutes else if s[o] == '-' then -minutes else 0
  }

  /** Whether a GeneralizedTime names more than a whole second. */
  predicate HasFraction(s: string) {
    !UtcTimeOk(s) && var p := IndexOf(s, '.') + 1;
    exists i :: p <= i < DigitsEnd(s, p) && At(s, i) != '0'
  }

  /** The whole second that an accepted time falls in, in UTC. */
  function DateOf(s: string): Instant
    requires TimeOk(s)
  {
    ZoneInRange(s);
    Shifted(Written(s), -Zone(s))
  }

  /** Whether an accepted time has come. */
  predicate HasCome(s: string, now: Instant)
    requires TimeOk(s)
  {
    DateOf(s).AtOrBefore(now) && !(DateOf(s) == now && HasFraction(s))
  }

  /** A zone an accepted time may have is less than 13 hours from UTC. */
  lemma ZoneInRange(s: string)
    requires TimeOk(s)
    ensures -780 < Zone(s) < 780
  {
    hide FieldOk, FieldsEnd;
    if UtcTimeOk(s) {
      UtcTimeFields(s);
      FieldRange(s, 4, 1, 31);
      FieldRange(s, 6, 0, 23);
      FieldRange(s, 8, 0, 59);
      if !StartsZone(At(s, 10)) {
        FieldRange(s, 10, 0, 59);
      }
      ZoneFound(s, if StartsZone(At(s, 10)) then 10 else 12);
    } else {
      FieldsRange(s, 4);
      FieldRange(s, 6, 1, 31);
      FieldRange(s, 8, 0, 23);
      FieldRange(s, 10, 0, 59);
      var e := FieldsEnd(s, 4, 0).value;
      if e == 14 {
        FieldRange(s, 12, 0, 59);
      }
      var o := if At(s, e) == '.' then DigitsEnd(s, e + 1) else e;
      forall i | o - 5 <= i < o ensures s[i] != '+' && s[i] != '-' {
        if i > e {
          assert IsDigit(At(s, i));
        }
      }
      ZoneFound(s, o);
    }
  }

  lemma ZoneFound(s: string, o: nat)
    requires 5 <= o <= |s| && ZoneEnd(s, o) == Some(|s|)
    requires forall i :: o - 5 <= i < o ==> s[i] != '+' && s[i] != '-'
    ensures -780 < Zone(s) < 780
    ensures Zone(s) != 0 ==> At(s, o) == '+' || At(s, o) == '-'
  {
    hide Number, FieldOk;
    if At(s, o) == '+' || At(s, o) == '-' {
      FieldRange(s, o + 1, 0, 12);
      FieldRange(s, o + 3, 0, 59);
    }
  }

  // ----- what the format checks come to -----

  /** The fields after the year down to the minute, and whatever follows them. */
  function FourText(t: Instant, tail: string): string
    requires t.Fits()
  {
    TwoDigits(t.month) + (TwoDigits(t.day) + (TwoDigits(t.hour) + (TwoDigits(t.minute) + tail)))
  }

  lemma FieldSplit(s: string, o: nat)
    requires o + 2 <= |s| && IsDigit(s[o]) && IsDigit(s[o + 1])
    ensures s[o..] == TwoDigits(Number(s, o)) + s[o + 2..]
  {
    hide TwoDigits, Number;
    TwoDigitsOf(s, o);
    assert s[o..] == s[o..o + 2] + s[o + 2..];
  }

  /** Z, or hours and minutes ahead of or behind UTC. */
  ghost predicate ZoneText(z: string) {
    z == "Z" || exists sign, h, m :: OffsetText(z, sign, h, m)
  }

  ghost predicate OffsetText(z: string, sign: char, h: nat, m: nat) {
    (sign == '+' || sign == '-') && h <= 12 && m <= 59 && z == [sign] + TwoDigits(h) + TwoDigits(m)
  }

  /** A point and digits. */
  ghost predicate FractionText(f: string) {
    |f| >= 2 && f[0] == '.' && forall i :: 1 <= i < |f| ==> IsDigit(f[i])
  }

  /** A UTCTime: YYMMDDHHMM, then a zone; or with seconds, and the zone may be missing. */
  ghost predicate UtcShape(s: string, t: Instant, zone: string) {
    && t.IsUtc()
    && (|| (ZoneText(zone) && s == TwoDigits(t.year % 100) + FourText(t, zone))
        || ((zone == "" || ZoneText(zone)) &&
            s == TwoDigits(t.year % 100) + FourText(t, TwoDigits(t.second) + zone)))
  }

  /** A GeneralizedTime: CCYYMMDDHHMM, perhaps seconds and then perhaps a fraction, and always a zone. */
  ghost predicate GeneralizedShape(s: string, t: Instant, fraction: string, zone: string) {
    && t.Valid() && ZoneText(zone)
    && var year := TwoDigits(t.year / 100) + TwoDigits(t.year % 100);
    && (|| s == year + FourText(t, zone)
        || ((fraction == "" || FractionText(fraction)) &&
            s == year + FourText(t, TwoDigits(t.second) + (fraction + zone))))
  }

  lemma ZoneIff(s: string, o: nat)
    requires o <= |s|
    ensures StartsZone(At(s, o)) && ZoneEnd(s, o) == Some(|s|) <==> ZoneText(s[o..])
  {
    var z := s[o..];
    assert o < |s| ==> z[0] == s[o];
    if StartsZone(At(s, o)) && ZoneEnd(s, o) == Some(|s|) {
      if s[o] != 'Z' {
        FieldRange(s, o + 1, 0, 12);
        FieldRange(s, o + 3, 0, 59);
        TwoDigitsOf(s, o + 1);
        TwoDigitsOf(s, o + 3);
        assert z == [s[o]] + s[o + 1..o + 3] + s[o + 3..o + 5];
        assert OffsetText(z, s[o], Number(s, o + 1), Number(s, o + 3));
      } else {
        assert z == "Z";
      }
    }
    if sign, h, m :| OffsetText(z, sign, h, m) {
      TwoDigitsAt(h);
      TwoDigitsAt(m);
      assert z[1] == s[o + 1] && z[2] == s[o + 2] && z[3] == s[o + 3] && z[4] == s[o + 4];
      assert z[1] == TwoDigits(h)[0] && z[2] == TwoDigits(h)[1] && z[3] == TwoDigits(m)[0] && z[4] == TwoDigits(m)[1];
    }
  }

  lemma FieldAt(s: string, o: nat, n: nat, tail: string)
    requires n <= 99 && o <= |s| && s[o..] == TwoDigits(n) + tail
    ensures forall lo: nat, hi: nat :: lo <= n <= hi ==> FieldOk(s, o, lo, hi)
    ensures o + 2 <= |s| && s[o + 2..] == tail && Number(s, o) == n && IsDigit(s[o])
  {
    TwoDigitsAt(n);
    assert s[o] == s[o..][0] == TwoDigits(n)[0] && s[o + 1] == s[o..][1] == TwoDigits(n)[1];
    assert s[o + 2..] == s[o..][2..];
  }

  lemma FourFieldsAt(s: string, o: nat, t: Instant, tail: string)
    requires t.Valid() && o <= |s| && s[o..] == FourText(t, tail)
    ensures FieldOk(s, o, 1, 12) && FieldOk(s, o + 2, 1, 31) && FieldOk(s, o + 4, 0, 23) && FieldOk(s, o + 6, 0, 59)
    ensures o + 8 <= |s| && s[o + 8..] == tail
  {
    hide FieldOk, TwoDigits, Number, IsDigit;
    FieldAt(s, o, t.month, TwoDigits(t.day) + (TwoDigits(t.hour) + (TwoDigits(t.minute) + tail)));
    FieldAt(s, o + 2, t.day, TwoDigits(t.hour) + (TwoDigits(t.minute) + tail));
    FieldAt(s, o + 4, t.hour, TwoDigits(t.minute) + tail);
    FieldAt(s, o + 6, t.minute, tail);
  }

  /** The other way: fields in range are the print of their numbers. */
  lemma FourFieldsAre(s: string, o: nat, t: Instant)
    requires FieldOk(s, o, 1, 12) && FieldOk(s, o + 2, 1, 31) && FieldOk(s, o + 4, 0, 23) && FieldOk(s, o + 6, 0, 59)
    requires t.month == Number(s, o) && t.day == Number(s, o + 2)
    requires t.hour == Number(s, o + 4) && t.minute == Number(s, o + 6)
    requires t.Fits()
    ensures o + 8 <= |s| && s[o..] == FourText(t, s[o + 8..])
  {
    hide FieldOk, TwoDigits, Number, IsDigit;
    FieldRange(s, o, 1, 12);
    FieldRange(s, o + 2, 1, 31);
    FieldRange(s, o + 4, 0, 23);
    FieldRange(s, o + 6, 0, 59);
    FieldSplit(s, o);
    FieldSplit(s, o + 2);
    FieldSplit(s, o + 4);
    FieldSplit(s, o + 6);
  }

  /** The UTCTimes that pass the check are exactly the texts of that shape. */
  lemma UtcTimeOkIff(s: string)
    ensures UtcTimeOk(s) <==> exists t, zone :: UtcShape(s, t, zone)
  {
    hide UtcTimeOk, UtcShape;
    if UtcTimeOk(s) {
      var t, zone := UtcShapeOf(s);
    }
    if t, zone :| UtcShape(s, t, zone) {
      UtcShapeOk(s, t, zone);
    }
  }

  lemma UtcShapeOf(s: string) returns (t: Instant, zone: string)
    requires UtcTimeOk(s)
    ensures UtcShape(s, t, zone)
  {
    hide FieldOk, FourText, ZoneText, ZoneEnd, TwoDigits, Number;
    WrittenIsUtc(s);
    t := Written(s);
    UtcTimeFields(s);
    FieldRange(s, 0, 0, 99);
    FieldSplit(s, 0);
    assert s[0..] == s;
    FourFieldsAre(s, 2, t);
    if StartsZone(At(s, 10)) {
      zone := s[10..];
      ZoneIff(s, 10);
    } else {
      FieldRange(s, 10, 0, 59);
      FieldSplit(s, 10);
      zone := s[12..];
      ZoneIff(s, 12);
      NoZone(s, 12);
    }
  }

  lemma NoZone(s: string, o: nat)
    requires o <= |s| && ZoneEnd(s, o) == Some(|s|)
    ensures !StartsZone(At(s, o)) ==> s[o..] == ""
  {
  }

  lemma UtcShapeOk(s: string, t: Instant, zone: string)
    requires UtcShape(s, t, zone)
    ensures UtcTimeOk(s)
  {
    hide FieldOk, FieldsEnd, TwoDigits, Number, ZoneText, ZoneEnd, FourText;
    if ZoneText(zone) && s == TwoDigits(t.year % 100) + FourText(t, zone) {
      YearFieldsAt(s, t, zone);
      ZoneTextLength(zone);
      ZoneIff(s, 10);
    } else {
      YearFieldsAt(s, t, TwoDigits(t.second) + zone);
      FieldAt(s, 10, t.second, zone);
      DigitStartsNoZone(s, 10);
      ZoneIff(s, 12);
      NoZoneEnds(s, 12);
    }
  }

  lemma YearFieldsAt(s: string, t: Instant, tail: string)
    requires t.Valid() && s == TwoDigits(t.year % 100) + FourText(t, tail)
    ensures FieldOk(s, 0, 0, 99) && |s| >= 10 && s[10..] == tail
    ensures StartsZone(At(s, 10)) ==> FieldsEnd(s, 2, 0) == Some(10)
    ensures !StartsZone(At(s, 10)) && FieldOk(s, 10, 0, 59) ==> FieldsEnd(s, 2, 0) == Some(12)
  {
    hide FieldOk, TwoDigits, Number, FourText, FieldsEnd, StartsZone;
    assert s[0..] == s;
    FieldAt(s, 0, t.year % 100, FourText(t, tail));
    FourFieldsAt(s, 2, t, tail);
    FieldsThere(s, 2);
  }

  lemma NoZoneEnds(s: string, o: nat)
    requires o <= |s|
    ensures s[o..] == "" ==> ZoneEnd(s, o) == Some(|s|)
  {
  }

  lemma ZoneTextLength(z: string)
    requires ZoneText(z)
    ensures z != "" && !IsDigit(z[0]) && z[0] != '.'
  {
  }

  lemma DigitStartsNoZone(s: string, o: nat)
    requires o < |s| && IsDigit(s[o])
    ensures !StartsZone(At(s, o))
  {
  }

  /** And so for the GeneralizedTimes. */
  lemma GeneralizedTimeOkIff(s: string)
    ensures GeneralizedTimeOk(s) <==> exists t, fraction, zone :: GeneralizedShape(s, t, fraction, zone)
  {
    hide GeneralizedTimeOk, GeneralizedShape;
    if GeneralizedTimeOk(s) {
      var t, fraction, zone := GeneralizedShapeOf(s);
    }
    if t, fraction, zone :| GeneralizedShape(s, t, fraction, zone) {
      GeneralizedShapeOk(s, t, fraction, zone);
    }
  }

  lemma GeneralizedShapeOf(s: string) returns (t: Instant, fraction: string, zone: string)
    requires GeneralizedTimeOk(s)
    ensures GeneralizedShape(s, t, fraction, zone)
  {
    hide FieldOk, FieldsEnd, FourText, ZoneText, ZoneEnd, TwoDigits, Number, FractionText;
    FieldsRange(s, 4);
    FieldRange(s, 0, 0, 99);
    FieldRange(s, 2, 0, 99);
    FieldRange(s, 4, 1, 12);
    FieldRange(s, 6, 1, 31);
    FieldRange(s, 8, 0, 23);
    FieldRange(s, 10, 0, 59);
    t := GeneralizedWritten(s);
    if StartsZone(At(s, 12)) {
      NotDigit(s, 12);
    } else {
      FieldRange(s, 12, 0, 59);
    }
    FieldSplit(s, 0);
    FieldSplit(s, 2);
    FourFieldsAre(s, 4, t);
    assert s[0..] == s;
    var year := TwoDigits(t.year / 100) + TwoDigits(t.year % 100);
    assert s == year + s[4..];
    fraction := "";
    if StartsZone(At(s, 12)) {
      zone := s[12..];
      ZoneIff(s, 12);
    } else {
      FieldSplit(s, 12);
      fraction, zone := FractionAndZone(s);
    }
  }

  lemma FractionAndZone(s: string) returns (fraction: string, zone: string)
    requires |s| >= 14
    requires var o := if At(s, 14) == '.' then DigitsEnd(s, 15) else 14;
             (At(s, 14) == '.' ==> o > 15) && StartsZone(At(s, o)) && ZoneEnd(s, o) == Some(|s|)
    ensures s[14..] == fraction + zone && (fraction == "" || FractionText(fraction)) && ZoneText(zone)
  {
    hide ZoneText, FractionText, ZoneEnd;
    var o := if At(s, 14) == '.' then DigitsEnd(s, 15) else 14;
    fraction, zone := s[14..o], s[o..];
    ZoneIff(s, o);
    FractionIs(s, o);
  }

  lemma FractionIs(s: string, o: nat)
    requires 14 <= o <= |s|
    requires if At(s, 14) == '.' then o == DigitsEnd(s, 15) && o > 15 else o == 14
    ensures s[14..o] == "" || FractionText(s[14..o])
  {
    if At(s, 14) == '.' {
      forall i | 1 <= i < |s[14..o]| ensures IsDigit(s[14..o][i]) {
        assert At(s, 14 + i) == s[14..o][i];
      }
    }
  }

  lemma GeneralizedShapeOk(s: string, t: Instant, fraction: string, zone: string)
    requires GeneralizedShape(s, t, fraction, zone)
    ensures GeneralizedTimeOk(s)
  {
    hide FieldOk, FieldsEnd, TwoDigits, Number, ZoneText, FractionText, ZoneEnd, FourText;
    var year := TwoDigits(t.year / 100) + TwoDigits(t.year % 100);
    ZoneTextLength(zone);
    if s == year + FourText(t, zone) {
      CenturyFieldsAt(s, t, zone);
      ZoneIff(s, 12);
      assert At(s, 12) == s[12..][0] == zone[0];
    } else {
      CenturyFieldsAt(s, t, TwoDigits(t.second) + (fraction + zone));
      FieldAt(s, 12, t.second, fraction + zone);
      DigitStartsNoZone(s, 12);
      FractionEnds(s, fraction, zone);
      var o := 14 + |fraction|;
      assert s[o..] == s[14..][|fraction|..] == zone;
      ZoneIff(s, o);
    }
  }

  lemma CenturyFieldsAt(s: string, t: Instant, tail: string)
    requires t.Valid() && s == TwoDigits(t.year / 100) + TwoDigits(t.year % 100) + FourText(t, tail)
    ensures FieldOk(s, 0, 0, 99) && FieldOk(s, 2, 0, 99)
    ensures |s| >= 12 && s[12..] == tail
    ensures StartsZone(At(s, 12)) ==> FieldsEnd(s, 4, 0) == Some(12)
    ensures !StartsZone(At(s, 12)) && FieldOk(s, 12, 0, 59) ==> FieldsEnd(s, 4, 0) == Some(14)
  {
    hide FieldOk, TwoDigits, Number, FourText, FieldsEnd, StartsZone;
    assert s[0..] == s;
    Associate(TwoDigits(t.year / 100), TwoDigits(t.year % 100), FourText(t, tail));
    FieldAt(s, 0, t.year / 100, TwoDigits(t.year % 100) + FourText(t, tail));
    FieldAt(s, 2, t.year % 100, FourText(t, tail));
    FourFieldsAt(s, 4, t, tail);
    FieldsThere(s, 4);
  }

  lemma FractionEnds(s: string, fraction: string, zone: string)
    requires |s| >= 14 && s[14..] == fraction + zone && zone != "" && !IsDigit(zone[0]) && zone[0] != '.'
    requires fraction == "" || FractionText(fraction)
    ensures if At(s, 14) == '.' then DigitsEnd(s, 15) == 14 + |fraction| && |fraction| > 1 else fraction == ""
  {
    if fraction == "" {
      assert s[14] == s[14..][0] == zone[0];
    } else {
      var o := 14 + |fraction|;
      assert s[14] == s[14..][0] == fraction[0];
      forall i | 15 <= i < o ensures IsDigit(s[i]) {
        assert s[i] == s[14..][i - 14] == fraction[i - 14];
      }
      assert s[o] == s[14..][|fraction|] == zone[0];
      DigitsEndIs(s, 15, o);
    }
  }

  lemma {:induction false} DigitsEndIs(s: string, o: nat, e: nat)
    requires o <= e < |s| && !IsDigit(s[e]) && forall i :: o <= i < e ==> IsDigit(s[i])
    ensures DigitsEnd(s, o) == e
    decreases e - o
  {
    if o < e {
      DigitsEndIs(s, o + 1, e);
    }
  }
}
