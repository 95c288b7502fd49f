/**
 * The time column of the schedule change list (`get_time_persian`,
 * backend/schedule/admin.py): a 24-hour time shown as a Persian 12-hour
 * time with the part of the day spelled out.
 */
module ScheduleAdmin {
  import opened Common
  import Decimal

  /** The four parts of the day the column names. */
  datatype Period = Bamdad | Sobh | Zohr | Asr

  function PeriodWord(p: Period): string {
    match p
    case Bamdad => "بامداد"
    case Sobh => "صبح"
    case Zohr => "ظهر"
    case Asr => "عصر"
  }

  const NotRecorded: string := "ثبت نشده است"

  /**
   * The displayed hour and the part of the day: midnight is 12 at night,
   * 1 to 11 are morning hours as they are, 12 to 17 lose twelve and are
   * midday (so noon itself shows as 0), and 18 to 23 lose twelve and are
   * evening.
   */
  function TwelveHour(hour: Hour): (r: (nat, Period))
    ensures r.0 <= 12
    ensures hour == 0 <==> r.1 == Bamdad
    ensures 1 <= hour < 12 <==> r.1 == Sobh
    ensures 12 <= hour <= 17 <==> r.1 == Zohr
    ensures 18 <= hour <==> r.1 == Asr
  {
    if hour == 0 then (12, Bamdad)
    else if 1 <= hour < 12 then (hour, Sobh)
    else if 12 <= hour <= 17 then (hour - 12, Zohr)
    else (hour - 12, Asr)
  }

  /** Reads a displayed hour and its part of the day back as a 24-hour hour. */
  function FromTwelveHour(shown: nat, p: Period): int {
    match p
    case Bamdad => shown - 12
    case Sobh => shown
    case Zohr => shown + 12
    case Asr => shown + 12
  }

  /** The displayed hour and the part of the day together always give back the hour. */
  lemma TwelveHourRoundTrip(hour: Hour)
    ensures FromTwelveHour(TwelveHour(hour).0, TwelveHour(hour).1) == hour
  {
  }

  /**
   * `get_time_persian`: "ثبت نشده است" when the schedule has no time,
   * otherwise the displayed hour, the part of the day, "و", the minute and
   * "دقیقه".
   */
  function GetTimePersian(t: Option<TimeOfDay>): (r: string)
    ensures t.None? ==> r == NotRecorded
    ensures t.Some? ==> Decimal.Show(TwelveHour(t.value.hour).0) + " " + PeriodWord(TwelveHour(t.value.hour).1) <= r
  {
    match t
    case None => NotRecorded
    case Some(time) =>
      var (shown, period) := TwelveHour(time.hour);
      Decimal.Show(shown) + " " + PeriodWord(period) + " و " + Decimal.Show(time.minute) + " دقیقه"
  }

  /** Digits that end where a space follows are fixed by the text: both splits agree. */
  lemma {:induction false} SplitAtSpace(a: string, x: string, b: string, y: string)
    requires forall i | 0 <= i < |a| :: Decimal.IsDigit(a[i])
    requires forall i | 0 <= i < |b| :: Decimal.IsDigit(b[i])
    requires a + " " + x == b + " " + y
    ensures a == b && x == y
  {
    var c := a + " " + x;
    assert c[|a|] == ' ' && c[|b|] == ' ';
    assert forall i | 0 <= i < |a| :: c[i] == a[i];
    assert forall i | 0 <= i < |b| :: c[i] == b[i];
    assert |a| == |b|;
    assert a == (a + " " + x)[..|a|];
    assert b == (b + " " + y)[..|b|];
    assert x == (a + " " + x)[|a| + 1..];
    assert y == (b + " " + y)[|b| + 1..];
  }

  /**
   * Digits that run to the end after a text ending in a space are fixed by
   * the text: both splits agree.
   */
  lemma {:induction false} SplitBeforeDigits(p: string, a: string, q: string, b: string)
    requires |p| >= 1 && p[|p| - 1] == ' ' && |q| >= 1 && q[|q| - 1] == ' '
    requires forall i | 0 <= i < |a| :: Decimal.IsDigit(a[i])
    requires forall i | 0 <= i < |b| :: Decimal.IsDigit(b[i])
    requires p + a == q + b
    ensures p == q && a == b
  {
    var c := p + a;
    assert c[|p| - 1] == ' ' && c[|q| - 1] == ' ';
    assert forall i | |p| <= i < |c| :: c[i] == a[i - |p|];
    assert forall i | |q| <= i < |c| :: c[i] == b[i - |q|];
    assert |a| == |b|;
    assert p == (p + a)[..|p|];
    assert q == (q + b)[..|q|];
    assert a == (p + a)[|p|..];
    assert b == (q + b)[|q|..];
  }

  /** After the hour, the text fixes the part of the day and the minute. */
  lemma TailInjective(p1: Period, m1: Minute, p2: Period, m2: Minute)
    requires PeriodWord(p1) + " و " + Decimal.Show(m1) + " دقیقه" == PeriodWord(p2) + " و " + Decimal.Show(m2) + " دقیقه"
    ensures p1 == p2 && m1 == m2
  {
    var tail1 := PeriodWord(p1) + " و " + Decimal.Show(m1) + " دقیقه";
    var tail2 := PeriodWord(p2) + " و " + Decimal.Show(m2) + " دقیقه";
    var mid1 := PeriodWord(p1) + " و " + Decimal.Show(m1);
    var mid2 := PeriodWord(p2) + " و " + Decimal.Show(m2);
    assert mid1 == tail1[..|tail1| - 6] && mid2 == tail2[..|tail2| - 6];
    SplitBeforeDigits(PeriodWord(p1) + " و ", Decimal.Show(m1), PeriodWord(p2) + " و ", Decimal.Show(m2));
    Decimal.ShowInjective(m1, m2);
    assert PeriodWord(p1) == (PeriodWord(p1) + " و ")[..|PeriodWord(p1)|];
    assert PeriodWord(p2) == (PeriodWord(p2) + " و ")[..|PeriodWord(p2)|];
  }

  /** The shown text split after the hour's space. */
  function Tail(t: TimeOfDay): string {
    PeriodWord(TwelveHour(t.hour).1) + " و " + Decimal.Show(t.minute) + " دقیقه"
  }

  /** The unfolding step: the shown text is the hour's digits, a space, and `Tail`. */
  lemma TextSplitsAfterHour(t: TimeOfDay)
    ensures GetTimePersian(Some(t)) == Decimal.Show(TwelveHour(t.hour).0) + " " + Tail(t)
  {
  }

  /**
   * The text fixes the hour and the minute: two times shown the same way
   * agree on both.
   */
  lemma TimeTextFixesHourAndMinute(s: TimeOfDay, t: TimeOfDay)
    requires GetTimePersian(Some(s)) == GetTimePersian(Some(t))
    ensures s.hour == t.hour && s.minute == t.minute
  {
    TextSplitsAfterHour(s);
    TextSplitsAfterHour(t);
    SplitAtSpace(Decimal.Show(TwelveHour(s.hour).0), Tail(s), Decimal.Show(TwelveHour(t.hour).0), Tail(t));
    Decimal.ShowInjective(TwelveHour(s.hour).0, TwelveHour(t.hour).0);
    TailInjective(TwelveHour(s.hour).1, s.minute, TwelveHour(t.hour).1, t.minute);
    TwelveHourRoundTrip(s.hour);
    TwelveHourRoundTrip(t.hour);
  }

  /**
   * The seconds and microseconds of a time are not shown: times that agree
   * on the hour and the minute are shown the same way, so the column cannot
   * tell 10:00:00 from 10:00:30.
   */
  lemma SecondsNotShown(s: TimeOfDay, t: TimeOfDay)
    requires s.hour == t.hour && s.minute == t.minute
    ensures GetTimePersian(Some(s)) == GetTimePersian(Some(t))
  {
  }
}
