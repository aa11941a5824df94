/** The integer-millisecond parts of `DateUtil`: the "time ago" label of `getDateDiff`, the
    `isEarlyThanNow` test and the whole-day count between two instants. Instants are `long`
    milliseconds since the epoch; the current time is a parameter. */
module DateUtil {
  import opened Wrappers
  import opened JavaInt
  import opened Text

  const MINUTE_MILLIS: nat := 1000 * 60
  const HOUR_MILLIS: nat := MINUTE_MILLIS * 60
  const DAY_MILLIS: nat := HOUR_MILLIS * 24
  const WEEK_MILLIS: nat := 7 * DAY_MILLIS
  /** A month counts as thirty days. */
  const MONTH_MILLIS: nat := DAY_MILLIS * 30

  const JUST_NOW: string := "刚刚"

  /** The units a label can use, coarsest first, and the suffix each is written with. */
  datatype Unit = Month | Week | Day | Hour | Minute

  const UNITS: seq<Unit> := [Month, Week, Day, Hour, Minute]

  function Millis(u: Unit): (ms: nat)
    ensures ms >= MINUTE_MILLIS
  {
    match u
    case Month => MONTH_MILLIS
    case Week => WEEK_MILLIS
    case Day => DAY_MILLIS
    case Hour => HOUR_MILLIS
    case Minute => MINUTE_MILLIS
  }

  function Suffix(u: Unit): string
  {
    match u
    case Month => "月前"
    case Week => "周前"
    case Day => "天前"
    case Hour => "小时前"
    case Minute => "分钟前"
  }

  /** `getDateDiff`: the `long` difference now - date (which wraps on overflow); a negative
      difference is "just now", any other is labelled by `Label`. */
  function GetDateDiff(dateTime: int, now: int): (r: string)
    requires IsLong(dateTime) && IsLong(now)
    ensures r != []
  {
    var diffValue := Wrap64(now - dateTime);
    if diffValue < 0 then JUST_NOW else Label(diffValue)
  }

  /** The branches of `getDateDiff` for a non-negative difference: the truncated count of the
      first unit among month, week, day, hour and minute whose count is at least one, else
      "just now". */
  function Label(diffValue: nat): (r: string)
    ensures r != []
  {
    var monthC := diffValue / MONTH_MILLIS;
    var weekC := diffValue / WEEK_MILLIS;
    var dayC := diffValue / DAY_MILLIS;
    var hourC := diffValue / HOUR_MILLIS;
    var minC := diffValue / MINUTE_MILLIS;
    if monthC >= 1 then NatToString(monthC) + "月前"
    else if weekC >= 1 then NatToString(weekC) + "周前"
    else if dayC >= 1 then NatToString(dayC) + "天前"
    else if dayC < 1 && hourC >= 1 then NatToString(hourC) + "小时前"
    else if hourC < 1 && minC >= 1 then NatToString(minC) + "分钟前"
    else if minC < 1 then JUST_NOW
    else ""
  }

  /** The label names the coarsest unit that fits in the difference. */
  lemma LabelIsCoarsestUnit(diff: nat, i: nat)
    requires i < |UNITS| && Millis(UNITS[i]) <= diff && forall j :: 0 <= j < i ==> diff < Millis(UNITS[j])
    ensures Label(diff) == NatToString(diff / Millis(UNITS[i])) + Suffix(UNITS[i])
  {
    CountAtLeastOne(diff, Millis(UNITS[i]));
    if i >= 1 { assert diff < Millis(UNITS[0]); CountAtLeastOne(diff, MONTH_MILLIS); }
    if i >= 2 { assert diff < Millis(UNITS[1]); CountAtLeastOne(diff, WEEK_MILLIS); }
    if i >= 3 { assert diff < Millis(UNITS[2]); CountAtLeastOne(diff, DAY_MILLIS); }
    if i >= 4 { assert diff < Millis(UNITS[3]); CountAtLeastOne(diff, HOUR_MILLIS); }
  }

  /** Under a minute, every count is zero and the label is "just now". */
  lemma LabelUnderAMinute(diff: nat)
    requires diff < MINUTE_MILLIS
    ensures Label(diff) == JUST_NOW
  {
    CountAtLeastOne(diff, MONTH_MILLIS);
    CountAtLeastOne(diff, WEEK_MILLIS);
    CountAtLeastOne(diff, DAY_MILLIS);
    CountAtLeastOne(diff, HOUR_MILLIS);
    CountAtLeastOne(diff, MINUTE_MILLIS);
  }

  /** The label is decided by the coarsest unit that fits in the difference: its truncated
      count and suffix; a difference that is negative or under a minute is "just now". */
  lemma DateDiffIsCoarsestUnit(dateTime: int, now: int)
    requires IsLong(dateTime) && IsLong(now)
    ensures var diff := Wrap64(now - dateTime);
      (diff < MINUTE_MILLIS ==> GetDateDiff(dateTime, now) == JUST_NOW) &&
      forall i :: 0 <= i < |UNITS| && Millis(UNITS[i]) <= diff && (forall j :: 0 <= j < i ==> diff < Millis(UNITS[j])) ==>
        GetDateDiff(dateTime, now) == NatToString(diff / Millis(UNITS[i])) + Suffix(UNITS[i])
  {
    DateDiffAtEachUnit(dateTime, now);
    if Wrap64(now - dateTime) < MINUTE_MILLIS {
      DateDiffUnderAMinute(dateTime, now);
    }
  }

  lemma DateDiffAtEachUnit(dateTime: int, now: int)
    requires IsLong(dateTime) && IsLong(now)
    ensures var diff := Wrap64(now - dateTime);
      forall i :: 0 <= i < |UNITS| && Millis(UNITS[i]) <= diff && (forall j :: 0 <= j < i ==> diff < Millis(UNITS[j])) ==>
        GetDateDiff(dateTime, now) == NatToString(diff / Millis(UNITS[i])) + Suffix(UNITS[i])
  {
    var diff := Wrap64(now - dateTime);
    forall i | 0 <= i < |UNITS| && Millis(UNITS[i]) <= diff && (forall j :: 0 <= j < i ==> diff < Millis(UNITS[j]))
      ensures GetDateDiff(dateTime, now) == NatToString(diff / Millis(UNITS[i])) + Suffix(UNITS[i])
    {
      DateDiffAtUnit(dateTime, now, i);
    }
  }

  lemma DateDiffAtUnit(dateTime: int, now: int, i: nat)
    requires IsLong(dateTime) && IsLong(now)
    requires i < |UNITS| && Millis(UNITS[i]) <= Wrap64(now - dateTime)
    requires forall j :: 0 <= j < i ==> Wrap64(now - dateTime) < Millis(UNITS[j])
    ensures GetDateDiff(dateTime, now) ==
      NatToString(Wrap64(now - dateTime) / Millis(UNITS[i])) + Suffix(UNITS[i])
  {
    LabelIsCoarsestUnit(Wrap64(now - dateTime), i);
  }

  lemma DateDiffUnderAMinute(dateTime: int, now: int)
    requires IsLong(dateTime) && IsLong(now) && Wrap64(now - dateTime) < MINUTE_MILLIS
    ensures GetDateDiff(dateTime, now) == JUST_NOW
  {
    var diff := Wrap64(now - dateTime);
    if diff >= 0 {
      LabelUnderAMinute(diff);
    }
  }

  /** A truncated count is at least one exactly when the unit fits. */
  lemma CountAtLeastOne(n: nat, d: nat)
    requires d >= 1
    ensures n / d >= 1 <==> n >= d
  {
    var q := n / d;
    assert n == q * d + n % d;
    if q >= 1 {
      MulAtLeast(q, d);
      assert q * d >= d by { assert q * d == (q - 1) * d + d; MulAtLeast(q - 1, d); }
    }
  }

  /** `isEarlyThanNow`: false for null, else the date is strictly before now. */
  predicate IsEarlyThanNow(date: Option<int>, now: int)
    ensures date.None? ==> !IsEarlyThanNow(date, now)
    ensures date.Some? ==> (IsEarlyThanNow(date, now) <==> date.value < now)
  {
    date.Some? && date.value < now
  }

  /** A date that is not before now is labelled "just now", and so is one less than a minute
      before it, as long as the difference fits in a `long`. */
  lemma NotEarlyIsJustNow(dateTime: int, now: int)
    requires IsLong(dateTime) && IsLong(now) && IsLong(now - dateTime)
    requires !IsEarlyThanNow(Some(dateTime), now) || now - dateTime < MINUTE_MILLIS
    ensures GetDateDiff(dateTime, now) == JUST_NOW
  {
    DateDiffIsCoarsestUnit(dateTime, now);
  }

  /** `countDays(date1, date2, format)` after parsing: both instants are cut to whole seconds,
      the `long` difference is cast to `int`, then divided by 3600 and by 24, truncating. */
  function CountDays(t1: int, t2: int): (days: int)
    requires IsLong(t1) && IsLong(t2)
    ensures IsInt(days)
  {
    var seconds := Wrap64(LongDiv(t2, 1000) - LongDiv(t1, 1000));
    IntDiv(IntDiv(Wrap32(seconds), 3600), 24)
  }

  /** The whole seconds between two instants, each cut to whole seconds first. */
  function Seconds(t1: int, t2: int): (s: int)
    requires IsLong(t1) && IsLong(t2)
    ensures IsLong(s) && s == TruncDiv(t2, 1000) - TruncDiv(t1, 1000)
  {
    TruncDivBound(t1, 1000);
    TruncDivBound(t2, 1000);
    assert TruncDiv(t1, 1000) == LongDiv(t1, 1000) && TruncDiv(t2, 1000) == LongDiv(t2, 1000);
    Wrap64(LongDiv(t2, 1000) - LongDiv(t1, 1000))
  }

  /** The day count with the cast to `int` applied last, once the value is a number of days:
      the whole days in the seconds between the instants, whenever that fits in an `int`. */
  function CountDaysCorrected(t1: int, t2: int): (days: int)
    requires IsLong(t1) && IsLong(t2)
    ensures IsInt(days)
    ensures IsInt(TruncDiv(Seconds(t1, t2), 86400)) ==> days == TruncDiv(Seconds(t1, t2), 86400)
  {
    var seconds := Seconds(t1, t2);
    TruncDivBound(seconds, 3600);
    TruncDivBound(TruncDiv(seconds, 3600), 24);
    NestedTruncDiv(seconds);
    Wrap32(LongDiv(LongDiv(seconds, 3600), 24))
  }

  /** Dividing by 3600 and then by 24, truncating each time, is dividing by 86400. */
  lemma NestedTruncDiv(x: int)
    ensures TruncDiv(TruncDiv(x, 3600), 24) == TruncDiv(x, 86400)
  {
    var n := if x >= 0 then x else -x;
    NestedDiv(n);
  }

  /** (n / 3600) / 24 == n / 86400 for a natural n. */
  lemma NestedDiv(n: nat)
    ensures n / 3600 / 24 == n / 86400
  {
    var q := n / 3600;
    var q2 := q / 24;
    assert n == q * 3600 + n % 3600;
    assert q == q2 * 24 + q % 24;
    assert n == q2 * 86400 + ((q % 24) * 3600 + n % 3600);
    assert 0 <= (q % 24) * 3600 + n % 3600 < 86400;
  }

  /** When the seconds between the instants fit in an `int`, the cast changes nothing and the
      day count as written is the corrected one. */
  lemma CountDaysAgreesWhenSecondsFit(t1: int, t2: int)
    requires IsLong(t1) && IsLong(t2) && IsInt(Seconds(t1, t2))
    ensures CountDays(t1, t2) == CountDaysCorrected(t1, t2) == TruncDiv(Seconds(t1, t2), 86400)
  {
    var seconds := Seconds(t1, t2);
    TruncDivBound(seconds, 3600);
    NestedTruncDiv(seconds);
    TruncDivBound(seconds, 86400);
  }

  /** 2^31 seconds (about 68 years) after the epoch: the cast to `int` wraps the seconds to
      -2^31, so the count as written is -24855 days where 24855 are meant. */
  lemma CountDaysWrapsAfter68Years()
    ensures Seconds(0, 2147483648000) == 2147483648
    ensures CountDays(0, 2147483648000) == -24855
    ensures CountDaysCorrected(0, 2147483648000) == 24855
  {
    assert Wrap32(2147483648) == INT_MIN;
    assert TruncDiv(INT_MIN, 3600) == -596523;
    assert TruncDiv(-596523, 24) == -24855;
    assert TruncDiv(2147483648, 86400) == 24855;
  }
}
