/**
 The text of a live task's idempotency key and why it identifies exactly one (exchange, minute).

 `to_iso8601` writes an instant in the extended form of ISO 8601 (section 5.6 of RFC 3339) with a
 trailing Z. On a whole minute the text has a fixed length, so the exchange name before it is
 determined by the key whatever characters it contains.
 */
module TaskKeys {
  import opened Prelude
  import LiveQueue

  const MINUTES_PER_DAY := 1440
  /** Days from 0001-01-01 to 1970-01-01 in the proleptic Gregorian calendar. */
  const EPOCH_DAY := 719_162

  datatype Civil = Civil(year: nat, month: nat, day: nat, hour: nat, minute: nat)

  predicate IsLeap(year: nat) {
    year % 4 == 0 && (year % 100 != 0 || year % 400 == 0)
  }

  /** Days from 0001-01-01 to the first of January of `year`. */
  function DaysBeforeYear(year: nat): int {
    var y := year - 1;
    y * 365 + y / 4 - y / 100 + y / 400
  }

  function DaysBeforeMonth(leap: bool, month: nat): nat
    requires 1 <= month <= 13
  {
    [0, 31, 59, 90, 120, 151, 181, 212, 243, 273, 304, 334, 365][month - 1] + if leap && month > 2 then 1 else 0
  }

  function MonthLength(year: nat, month: nat): nat {
    if month == 2 then if IsLeap(year) then 29 else 28
    else if month in {4, 6, 9, 11} then 30 else 31
  }

  /** The instants a `datetime` can hold: years 1 to 9999. */
  predicate Representable(t: int) {
    RepresentableMinute(t / LiveQueue.MINUTE)
  }

  predicate RepresentableMinute(m: int) {
    0 <= m / MINUTES_PER_DAY + EPOCH_DAY < DaysBeforeYear(10_000)
  }

  function YearOf(day: nat, from: nat): (year: nat)
    requires 1 <= from <= 9_999 && DaysBeforeYear(from) <= day < DaysBeforeYear(10_000)
    ensures 1 <= year <= 9_999 && DaysBeforeYear(year) <= day < DaysBeforeYear(year + 1)
    decreases 10_000 - from
  {
    if day < DaysBeforeYear(from + 1) then from else YearOf(day, from + 1)
  }

  function MonthOf(leap: bool, dayOfYear: nat, from: nat): (month: nat)
    requires 1 <= from <= 12 && DaysBeforeMonth(leap, from) <= dayOfYear < DaysBeforeMonth(leap, 13)
    ensures 1 <= month <= 12 && DaysBeforeMonth(leap, month) <= dayOfYear < DaysBeforeMonth(leap, month + 1)
    decreases 12 - from
  {
    if dayOfYear < DaysBeforeMonth(leap, from + 1) then from else MonthOf(leap, dayOfYear, from + 1)
  }

  lemma QuotientStep(y: nat, width: nat)
    requires width > 0
    ensures (y + 1) / width == y / width + if (y + 1) % width == 0 then 1 else 0
  {
    var q, r := y / width, y % width;
    assert y == q * width + r;
    if r + 1 == width {
      assert (q + 1) * width == q * width + width;
      BucketIsQuotient(y + 1, q + 1, width);
    } else {
      BucketIsQuotient(y + 1, q, width);
    }
  }

  lemma YearLength(year: nat)
    requires year >= 1
    ensures DaysBeforeYear(year + 1) - DaysBeforeYear(year) == DaysBeforeMonth(IsLeap(year), 13)
  {
    var y := year - 1;
    QuotientStep(y, 4);
    QuotientStep(y, 100);
    QuotientStep(y, 400);
    LeapRules(year);
    assert DaysBeforeYear(year + 1) - DaysBeforeYear(year)
        == 365 + ((y + 1) / 4 - y / 4) - ((y + 1) / 100 - y / 100) + ((y + 1) / 400 - y / 400);
  }

  lemma LeapRules(year: nat)
    ensures year % 400 == 0 ==> year % 100 == 0
    ensures year % 100 == 0 ==> year % 4 == 0
  {
    if year % 400 == 0 {
      BucketIsQuotient(year, year / 400 * 4, 100);
    }
    if year % 100 == 0 {
      BucketIsQuotient(year, year / 100 * 25, 4);
    }
  }

  lemma MonthLengthMeaning(year: nat, month: nat)
    requires 1 <= month <= 12
    ensures DaysBeforeMonth(IsLeap(year), month + 1)
         == DaysBeforeMonth(IsLeap(year), month) + MonthLength(year, month)
  {
  }

  function DateOf(day: nat): (c: Civil)
    requires day < DaysBeforeYear(10_000)
    ensures WellFormed(c) && DayNumber(c) == day
  {
    var year := YearOf(day, 1);
    YearLength(year);
    var dayOfYear := day - DaysBeforeYear(year);
    var month := MonthOf(IsLeap(year), dayOfYear, 1);
    MonthLengthMeaning(year, month);
    Civil(year, month, dayOfYear - DaysBeforeMonth(IsLeap(year), month) + 1, 0, 0)
  }

  function DayNumber(c: Civil): int
    requires 1 <= c.month <= 12
  {
    DaysBeforeYear(c.year) + DaysBeforeMonth(IsLeap(c.year), c.month) + c.day - 1
  }

  predicate WellFormed(c: Civil) {
    1 <= c.year <= 9_999 && 1 <= c.month <= 12 && 1 <= c.day <= MonthLength(c.year, c.month)
    && c.hour < 24 && c.minute < 60
  }

  function MinuteIndex(c: Civil): int
    requires 1 <= c.month <= 12
  {
    (DayNumber(c) - EPOCH_DAY) * MINUTES_PER_DAY + c.hour * 60 + c.minute
  }

  /** The calendar reading of the `m`-th minute since the epoch; reading it back gives `m`. */
  function CivilOf(m: int): (c: Civil)
    requires RepresentableMinute(m)
    ensures WellFormed(c) && MinuteIndex(c) == m
  {
    var date := DateOf(m / MINUTES_PER_DAY + EPOCH_DAY);
    date.(hour := m % MINUTES_PER_DAY / 60, minute := m % MINUTES_PER_DAY % 60)
  }

  // ---------- the calendar, minute by minute ----------

  /** The calendar counts on from midnight of 1970-01-01 as clocks and month lengths do. */
  lemma NextMinute(c: Civil)
    requires WellFormed(c)
    ensures MinuteIndex(Civil(1970, 1, 1, 0, 0)) == 0
    ensures c.minute < 59 ==> MinuteIndex(c.(minute := c.minute + 1)) == MinuteIndex(c) + 1
    ensures c.minute == 59 && c.hour < 23 ==> MinuteIndex(c.(hour := c.hour + 1, minute := 0)) == MinuteIndex(c) + 1
    ensures c.minute == 59 && c.hour == 23 ==> MinuteIndex(Tomorrow(c)) == MinuteIndex(c) + 1
  {
    MonthLengthMeaning(c.year, c.month);
    YearLength(c.year);
  }

  /** Midnight of the day after `c`, by the lengths of the months. */
  function Tomorrow(c: Civil): (d: Civil)
    requires WellFormed(c)
    ensures 1 <= d.month <= 12
  {
    var leap := c.year % 4 == 0 && (c.year % 100 != 0 || c.year % 400 == 0);
    var length := if c.month == 2 then if leap then 29 else 28
                  else if c.month == 4 || c.month == 6 || c.month == 9 || c.month == 11 then 30 else 31;
    if c.day < length then Civil(c.year, c.month, c.day + 1, 0, 0)
    else if c.month < 12 then Civil(c.year, c.month + 1, 1, 0, 0)
    else Civil(c.year + 1, 1, 1, 0, 0)
  }

  lemma {:induction false} YearsGrow(year: nat, later: nat)
    requires 1 <= year <= later
    ensures DaysBeforeYear(year) <= DaysBeforeYear(later)
    decreases later - year
  {
    if year < later {
      YearLength(year);
      YearsGrow(year + 1, later);
    }
  }

  lemma DaysOfYear(c: Civil)
    requires WellFormed(c)
    ensures DaysBeforeYear(c.year) <= DayNumber(c) < DaysBeforeYear(c.year + 1)
    ensures DaysBeforeMonth(IsLeap(c.year), c.month) <= DayNumber(c) - DaysBeforeYear(c.year)
          < DaysBeforeMonth(IsLeap(c.year), c.month + 1)
  {
    MonthLengthMeaning(c.year, c.month);
    YearLength(c.year);
  }

  lemma LaterYear(c: Civil, d: Civil)
    requires WellFormed(c) && WellFormed(d) && c.year < d.year
    ensures DayNumber(c) < DayNumber(d)
  {
    DaysOfYear(c);
    DaysOfYear(d);
    YearsGrow(c.year + 1, d.year);
  }

  /** A day has one date. */
  lemma DayNumberInjective(c: Civil, d: Civil)
    requires WellFormed(c) && WellFormed(d) && DayNumber(c) == DayNumber(d)
    ensures c.year == d.year && c.month == d.month && c.day == d.day
  {
    DaysOfYear(c);
    DaysOfYear(d);
    if c.year < d.year {
      LaterYear(c, d);
    } else if d.year < c.year {
      LaterYear(d, c);
    }
  }

  lemma IndexSplit(c: Civil)
    requires WellFormed(c)
    ensures MinuteIndex(c) / MINUTES_PER_DAY + EPOCH_DAY == DayNumber(c)
    ensures MinuteIndex(c) % MINUTES_PER_DAY == c.hour * 60 + c.minute
  {
    BucketIsQuotient(MinuteIndex(c), DayNumber(c) - EPOCH_DAY, MINUTES_PER_DAY);
  }

  lemma DayInRange(c: Civil)
    requires WellFormed(c)
    ensures 0 <= DayNumber(c) < DaysBeforeYear(10_000)
  {
    DaysOfYear(c);
    YearsGrow(1, c.year);
    YearsGrow(c.year + 1, 10_000);
  }

  /** Reading a civil minute's index gives that minute back: the calendar is a bijection. */
  lemma CivilRoundTrip(c: Civil)
    requires WellFormed(c)
    ensures RepresentableMinute(MinuteIndex(c)) && CivilOf(MinuteIndex(c)) == c
  {
    IndexSplit(c);
    DayInRange(c);
    SameIndex(c, CivilOf(MinuteIndex(c)));
  }

  lemma SameIndex(c: Civil, d: Civil)
    requires WellFormed(c) && WellFormed(d) && MinuteIndex(c) == MinuteIndex(d)
    ensures c == d
  {
    IndexSplit(c);
    IndexSplit(d);
    DayNumberInjective(c, d);
    assert c.hour == (c.hour * 60 + c.minute) / 60;
  }

  function Digit(n: nat): char
    requires n < 10
  {
    '0' + n as char
  }

  function IsoText(c: Civil): (s: string)
    requires WellFormed(c)
  {
    [Digit(c.year / 1000), Digit(c.year / 100 % 10), Digit(c.year / 10 % 10), Digit(c.year % 10), '-',
     Digit(c.month / 10), Digit(c.month % 10), '-', Digit(c.day / 10), Digit(c.day % 10), 'T',
     Digit(c.hour / 10), Digit(c.hour % 10), ':', Digit(c.minute / 10), Digit(c.minute % 10), ':', '0', '0', 'Z']
  }

  function IsoMinute(t: int): (s: string)
    requires Representable(t)
    ensures |s| == 20
  {
    IsoText(CivilOf(t / LiveQueue.MINUTE))
  }

  function LiveFundingTaskKey(exchange: string, scheduledFor: int): string
    requires Representable(scheduledFor)
  {
    KeyText(exchange, IsoMinute(scheduledFor))
  }

  function KeyText(exchange: string, stamp: string): string {
    "live_funding_snapshot:" + exchange + ":" + stamp
  }

  lemma DigitsInjective(a: nat, b: nat)
    requires a < 10_000 && b < 10_000
    requires a / 1000 == b / 1000 && a / 100 % 10 == b / 100 % 10 && a / 10 % 10 == b / 10 % 10 && a % 10 == b % 10
    ensures a == b
  {
    DigitSplit(a / 100, b / 100);
    DigitSplit(a / 10, b / 10);
    DigitSplit(a, b);
  }

  lemma DigitSplit(a: nat, b: nat)
    ensures a / 10 == b / 10 && a % 10 == b % 10 ==> a == b
    ensures a / 10 / 10 == a / 100 && a / 100 / 10 == a / 1000
    ensures b / 10 / 10 == b / 100 && b / 100 / 10 == b / 1000
  {
  }

  /** The number that a character stands for. */
  function Reading(c: char): int {
    c as int - 48
  }

  /** The text, place by place: year, month, day, hour and minute with leading zeros, at a full minute in UTC. */
  lemma IsoTextLayout(c: Civil)
    requires WellFormed(c)
    ensures var s := IsoText(c);
      && |s| == 20
      && s[4] == '-' && s[7] == '-' && s[10] == 'T' && s[13] == ':' && s[16..] == ":00Z"
      && 1000 * Reading(s[0]) + 100 * Reading(s[1]) + 10 * Reading(s[2]) + Reading(s[3]) == c.year
      && 10 * Reading(s[5]) + Reading(s[6]) == c.month && 10 * Reading(s[8]) + Reading(s[9]) == c.day
      && 10 * Reading(s[11]) + Reading(s[12]) == c.hour && 10 * Reading(s[14]) + Reading(s[15]) == c.minute
      && forall i :: 0 <= i < 16 && i !in {4, 7, 10, 13} ==> '0' <= s[i] <= '9'
  {
    DigitSplit(c.year / 100, 0);
    DigitSplit(c.year, 0);
  }

  lemma IsoTextInjective(c: Civil, d: Civil)
    requires WellFormed(c) && WellFormed(d) && IsoText(c) == IsoText(d)
    ensures c == d
  {
    var s, r := IsoText(c), IsoText(d);
    assert s[0] == r[0] && s[1] == r[1] && s[2] == r[2] && s[3] == r[3];
    DigitsInjective(c.year, d.year);
    assert s[5] == r[5] && s[6] == r[6];
    DigitSplit(c.month, d.month);
    assert s[8] == r[8] && s[9] == r[9];
    DigitSplit(c.day, d.day);
    assert s[11] == r[11] && s[12] == r[12];
    DigitSplit(c.hour, d.hour);
    assert s[14] == r[14] && s[15] == r[15];
    DigitSplit(c.minute, d.minute);
  }

  lemma CivilOfInjective(m: int, n: int)
    requires RepresentableMinute(m) && RepresentableMinute(n) && CivilOf(m) == CivilOf(n)
    ensures m == n
  {
    var c := CivilOf(m);
    assert m == MinuteIndex(c);
    assert n == MinuteIndex(CivilOf(n));
  }

  /** Two instants have the same text exactly when they lie in the same minute. */
  lemma IsoMinuteInjective(t: int, u: int)
    requires Representable(t) && Representable(u)
    ensures IsoMinute(t) == IsoMinute(u) <==> t / LiveQueue.MINUTE == u / LiveQueue.MINUTE
  {
    var m, n := t / LiveQueue.MINUTE, u / LiveQueue.MINUTE;
    if IsoMinute(t) == IsoMinute(u) {
      IsoTextInjective(CivilOf(m), CivilOf(n));
      CivilOfInjective(m, n);
    }
  }

  lemma KeyTextInjective(e: string, s: string, f: string, r: string)
    requires |s| == |r|
    requires KeyText(e, s) == KeyText(f, r)
    ensures e == f && s == r
  {
    var a, b := KeyText(e, s), KeyText(f, r);
    assert a[22..22 + |e|] == e && b[22..22 + |f|] == f;
    assert a[23 + |e|..] == s && b[23 + |f|..] == r;
  }

  /** The key text identifies the exchange and the minute, for any exchange names. */
  lemma TaskKeyInjective(e: string, t: int, f: string, u: int)
    requires Representable(t) && Representable(u)
    ensures LiveFundingTaskKey(e, t) == LiveFundingTaskKey(f, u) <==>
            e == f && BucketStart(t, LiveQueue.MINUTE) == BucketStart(u, LiveQueue.MINUTE)
  {
    IsoMinuteInjective(t, u);
    if LiveFundingTaskKey(e, t) == LiveFundingTaskKey(f, u) {
      KeyTextInjective(e, IsoMinute(t), f, IsoMinute(u));
    }
  }
}
