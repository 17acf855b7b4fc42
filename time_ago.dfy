/**
 * The `time_ago` display filter: how long ago a post was written, in whole days,
 * hours or minutes.  Times are integer microseconds; the current time is a parameter.
 * The difference is normalised the way Python's `datetime.timedelta` does it: `days`
 * is the floor of the difference in days and `seconds` the non-negative remainder.
 */
module TimeAgo {
  import opened Text

  const MicrosPerSecond: int := 1_000_000
  const SecondsPerDay: int := 86_400
  const MicrosPerDay: int := 86_400_000_000
  const MicrosPerHour: int := 3_600_000_000
  const MicrosPerMinute: int := 60_000_000

  /** A `timedelta` in normal form. */
  datatype Delta = Delta(days: int, seconds: int, microseconds: int)

  /** `timedelta(microseconds = us)`. */
  function Normalize(us: int): (d: Delta)
    ensures 0 <= d.seconds < SecondsPerDay && 0 <= d.microseconds < MicrosPerSecond
    ensures (d.days * SecondsPerDay + d.seconds) * MicrosPerSecond + d.microseconds == us
  {
    var rest := us % MicrosPerDay;
    Delta(us / MicrosPerDay, rest / MicrosPerSecond, rest % MicrosPerSecond)
  }

  /** What the filter says, before it is rendered as text. */
  datatype Ago = DaysAgo(days: nat) | HoursAgo(hours: nat) | MinutesAgo(minutes: nat) | JustNow

  /**
   * `time_ago`: the first bucket whose strict test passes wins.  Whatever the two times,
   * a count is never zero, and hours and minutes stay below the next unit.
   */
  function TimeAgo(now: int, posted: int): (r: Ago)
    ensures r.DaysAgo? ==> r.days >= 1
    ensures r.HoursAgo? ==> 1 <= r.hours <= 23
    ensures r.MinutesAgo? ==> 1 <= r.minutes <= 60
  {
    var diff := Normalize(now - posted);
    if diff.days > 0 then DaysAgo(diff.days)
    else if diff.seconds > 3600 then HoursAgo(diff.seconds / 3600)
    else if diff.seconds > 60 then MinutesAgo(diff.seconds / 60)
    else JustNow
  }

  /** The count of a counted answer. */
  function Count(a: Ago): nat
    requires !a.JustNow?
  {
    match a
    case DaysAgo(n) => n
    case HoursAgo(n) => n
    case MinutesAgo(n) => n
  }

  /** The text after the count of a counted answer. */
  function Unit(a: Ago): string
    requires !a.JustNow?
  {
    match a
    case DaysAgo(_) => " days ago"
    case HoursAgo(_) => " hours ago"
    case MinutesAgo(_) => " minutes ago"
  }

  /** The f-strings of `time_ago`. */
  function Render(a: Ago): (r: string)
    ensures a.JustNow? <==> r == "Just now"
  {
    if a.JustNow? then "Just now"
    else
      var r := NatToDecimal(Count(a)) + Unit(a);
      assert r[0] == NatToDecimal(Count(a))[0];
      r
  }

  /** The sixth character from the end tells the three units apart. */
  lemma UnitMark(a: Ago)
    requires !a.JustNow?
    ensures |Unit(a)| >= 6
    ensures Unit(a)[|Unit(a)| - 6] == if a.DaysAgo? then 'y' else if a.HoursAgo? then 'r' else 'e'
  {
  }

  /** A counted answer's text ends with its unit and starts with its numeral. */
  lemma RenderParts(a: Ago)
    requires !a.JustNow?
    ensures Render(a)[..|NatToDecimal(Count(a))|] == NatToDecimal(Count(a))
    ensures Render(a)[|Render(a)| - 6] == Unit(a)[|Unit(a)| - 6]
  {
    UnitMark(a);
    var n, u := NatToDecimal(Count(a)), Unit(a);
    assert Render(a) == n + u;
  }

  /** Different answers are rendered as different texts, so the text determines the answer. */
  lemma RenderInjective(a: Ago, b: Ago)
    requires Render(a) == Render(b)
    ensures a == b
  {
    if !a.JustNow? && !b.JustNow? {
      UnitMark(a);
      UnitMark(b);
      RenderParts(a);
      RenderParts(b);
      assert a.DaysAgo? == b.DaysAgo? && a.HoursAgo? == b.HoursAgo?;
      assert |NatToDecimal(Count(a))| == |NatToDecimal(Count(b))|;
      assert NatToDecimal(Count(a)) == NatToDecimal(Count(b));
    }
  }

  /** The elapsed time an answer claims at least: its count times its unit. */
  function ClaimedMicros(a: Ago): int {
    match a
    case DaysAgo(n) => n * MicrosPerDay
    case HoursAgo(n) => n * MicrosPerHour
    case MinutesAgo(n) => n * MicrosPerMinute
    case JustNow => 0
  }

  function UnitMicros(a: Ago): int {
    match a
    case DaysAgo(_) => MicrosPerDay
    case HoursAgo(_) => MicrosPerHour
    case MinutesAgo(_) => MicrosPerMinute
    case JustNow => MicrosPerMinute
  }

  /**
   * For a past timestamp: the bucket is chosen by the elapsed time (whole seconds
   * strictly above 3600 give hours, strictly above 60 give minutes), and the count is
   * the elapsed time truncated to whole units.
   */
  lemma TimeAgoBuckets(now: int, posted: int)
    requires posted <= now
    ensures var d, r := now - posted, TimeAgo(now, posted);
      && (r.JustNow? <==> d < 61 * MicrosPerSecond)
      && (r.MinutesAgo? <==> 61 * MicrosPerSecond <= d < 3601 * MicrosPerSecond)
      && (r.HoursAgo? <==> 3601 * MicrosPerSecond <= d < MicrosPerDay)
      && (r.DaysAgo? <==> MicrosPerDay <= d)
      && (r.MinutesAgo? ==> 1 <= r.minutes <= 60)
      && (r.HoursAgo? ==> 1 <= r.hours <= 23)
      && (!r.JustNow? ==> ClaimedMicros(r) <= d < ClaimedMicros(r) + UnitMicros(r))
  {
    var d := now - posted;
    var diff := Normalize(d);
    if d < MicrosPerDay {
      assert diff.days == 0;
      assert diff.seconds == d / MicrosPerSecond;
    } else {
      assert diff.days >= 1;
    }
  }

  /** The strict comparisons: a full hour still reads in minutes, a full minute as now. */
  lemma TimeAgoBoundaries(now: int)
    ensures TimeAgo(now, now - 3600 * MicrosPerSecond) == MinutesAgo(60)
    ensures TimeAgo(now, now - 3601 * MicrosPerSecond) == HoursAgo(1)
    ensures TimeAgo(now, now - 60 * MicrosPerSecond) == JustNow
    ensures TimeAgo(now, now - 61 * MicrosPerSecond) == MinutesAgo(1)
    ensures TimeAgo(now, now - MicrosPerDay) == DaysAgo(1)
  {
    TimeAgoBuckets(now, now - 3600 * MicrosPerSecond);
    TimeAgoBuckets(now, now - 3601 * MicrosPerSecond);
    TimeAgoBuckets(now, now - 60 * MicrosPerSecond);
    TimeAgoBuckets(now, now - 61 * MicrosPerSecond);
    TimeAgoBuckets(now, now - MicrosPerDay);
  }

  /**
   * For a timestamp in the future `days` is negative, so the answer comes from the
   * remainder alone: it is the answer for the difference taken modulo one day.
   */
  lemma FutureTimestampWrapsToDay(now: int, posted: int)
    requires now < posted
    ensures TimeAgo(now, posted) == TimeAgo((now - posted) % MicrosPerDay, 0)
  {
    var d := now - posted;
    assert Normalize(d).days < 0;
    assert Normalize(d).seconds == Normalize(d % MicrosPerDay).seconds;
  }

  /** Five minutes in the future is reported as "23 hours ago". */
  lemma FutureTimestampReadsHoursAgo(now: int)
    ensures TimeAgo(now, now + 300 * MicrosPerSecond) == HoursAgo(23)
    ensures Render(TimeAgo(now, now + 300 * MicrosPerSecond)) == "23 hours ago"
    ensures ClaimedMicros(TimeAgo(now, now + 300 * MicrosPerSecond)) > 0
  {
    var d := -300 * MicrosPerSecond;
    assert Normalize(d) == Delta(-1, SecondsPerDay - 300, 0);
  }

  /** `time_ago` with a future timestamp read as "Just now". */
  function TimeAgoClamped(now: int, posted: int): (r: Ago)
    ensures posted <= now ==> r == TimeAgo(now, posted)
  {
    if now < posted then JustNow else TimeAgo(now, posted)
  }

  /** The clamped filter never claims more time has passed than actually has. */
  lemma TimeAgoClampedNeverOverstates(now: int, posted: int)
    ensures ClaimedMicros(TimeAgoClamped(now, posted)) <= if now < posted then 0 else now - posted
  {
    if posted <= now {
      TimeAgoBuckets(now, posted);
    }
  }
}
