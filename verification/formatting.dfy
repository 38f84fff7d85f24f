/**
 * The text the organiser shows for a note: the relative time `formatDate`
 * gives for its creation time and the 100-character preview `renderNotes`
 * shows of its content.
 */
module Formatting {
  import opened Text

  const MinuteMs: int := 1000 * 60
  const HourMs: int := 1000 * 60 * 60
  const DayMs: int := 1000 * 60 * 60 * 24

  /** The five kinds of answer `formatDate` gives. */
  datatype Elapsed = JustNow | MinutesAgo(minutes: int) | HoursAgo(hours: int) | DaysAgo(days: int) | OnDate

  /**
   * How long ago `date` was at `now` (both in milliseconds), in the largest
   * unit below its threshold: under a minute (or in the future), whole
   * minutes under an hour, whole hours under a day, whole days under a week,
   * otherwise the calendar date. `Math.floor` of a quotient by a positive
   * divisor is Dafny's `/`.
   */
  function ElapsedSince(date: int, now: int): (r: Elapsed)
    ensures r.JustNow? <==> now - date < MinuteMs
    ensures r.MinutesAgo? <==> MinuteMs <= now - date < HourMs
    ensures r.HoursAgo? <==> HourMs <= now - date < DayMs
    ensures r.DaysAgo? <==> DayMs <= now - date < 7 * DayMs
    ensures r.OnDate? <==> 7 * DayMs <= now - date
    ensures r.MinutesAgo? ==> 1 <= r.minutes < 60 && r.minutes * MinuteMs <= now - date < (r.minutes + 1) * MinuteMs
    ensures r.HoursAgo? ==> 1 <= r.hours < 24 && r.hours * HourMs <= now - date < (r.hours + 1) * HourMs
    ensures r.DaysAgo? ==> 1 <= r.days < 7 && r.days * DayMs <= now - date < (r.days + 1) * DayMs
  {
    var diff := now - date;
    var minutes, hours, days := diff / MinuteMs, diff / HourMs, diff / DayMs;
    if minutes < 1 then JustNow
    else if minutes < 60 then MinutesAgo(minutes)
    else if hours < 24 then HoursAgo(hours)
    else if days < 7 then DaysAgo(days)
    else OnDate
  }

  /**
   * `formatDate(date)` evaluated at time `now`; `absolute` is what
   * `toLocaleDateString('ja-JP')` gives for the date.
   */
  function FormatDate(date: int, now: int, absolute: string): (r: string)
    ensures now - date < MinuteMs ==> r == "たった今"
    ensures MinuteMs <= now - date < HourMs ==> r == IntToString((now - date) / MinuteMs) + "分前"
    ensures HourMs <= now - date < DayMs ==> r == IntToString((now - date) / HourMs) + "時間前"
    ensures DayMs <= now - date < 7 * DayMs ==> r == IntToString((now - date) / DayMs) + "日前"
    ensures 7 * DayMs <= now - date ==> r == absolute
  {
    match ElapsedSince(date, now)
    case JustNow => "たった今"
    case MinutesAgo(m) => IntToString(m) + "分前"
    case HoursAgo(h) => IntToString(h) + "時間前"
    case DaysAgo(d) => IntToString(d) + "日前"
    case OnDate => absolute
  }

  /** The answers in increasing order of age. */
  function Rank(e: Elapsed): int {
    match e
    case JustNow => 0
    case MinutesAgo(m) => m
    case HoursAgo(h) => 60 * h
    case DaysAgo(d) => 24 * 60 * d
    case OnDate => 7 * 24 * 60
  }

  /** As time passes a note never looks younger: the answer only moves on. */
  lemma ElapsedMonotone(date: int, now: int, later: int)
    requires now <= later
    ensures Rank(ElapsedSince(date, now)) <= Rank(ElapsedSince(date, later))
  {
    var d, d' := now - date, later - date;
    DivMonotone(d, d', MinuteMs);
    DivMonotone(d, d', HourMs);
    DivMonotone(d, d', DayMs);
  }

  lemma DivMonotone(a: int, b: int, k: int)
    requires a <= b && k > 0
    ensures a / k <= b / k
  {
    if a / k > b / k {
      MulMonotone(b / k + 1, a / k, k);
      assert false;
    }
  }

  lemma MulMonotone(x: int, y: int, k: int)
    requires x <= y && k > 0
    ensures x * k <= y * k
  {
  }

  /** A creation time now, or in the future, reads "just now". */
  lemma FormatJustNow(date: int, now: int, absolute: string)
    requires now < date + MinuteMs
    ensures FormatDate(date, now, absolute) == "たった今"
  {
  }

  /** Exactly one hour old reads "1 hour ago", not "60 minutes ago". */
  lemma FormatOneHour(date: int, absolute: string)
    ensures FormatDate(date, date + HourMs, absolute) == "1時間前"
  {
    assert ElapsedSince(date, date + HourMs) == HoursAgo(1);
  }

  /** Exactly one day old reads "1 day ago", not "24 hours ago". */
  lemma FormatOneDay(date: int, absolute: string)
    ensures FormatDate(date, date + DayMs, absolute) == "1日前"
  {
    assert ElapsedSince(date, date + DayMs) == DaysAgo(1);
  }

  /** The number of characters the preview keeps. */
  const PreviewLength: nat := 100

  /** `content.substring(0, 100)` followed by "..." when the content is longer. */
  function Preview(content: string): (r: string)
    ensures |content| <= PreviewLength ==> r == content
    ensures |content| > PreviewLength ==> |r| == PreviewLength + 3 && r[..PreviewLength] == content[..PreviewLength] && r[PreviewLength..] == "..."
  {
    content[..if |content| < PreviewLength then |content| else PreviewLength] + (if |content| > PreviewLength then "..." else "")
  }
}
