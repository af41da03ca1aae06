/** The schedule of one card: `RepItemScheduleInfo_Simple`.

    An immutable value built once by its constructor: an optional due date, an
    interval in whole days, the latest ease and the delay (in ticks) between the due
    date and the review. `today` is the date the source reads from its global date
    provider; it is a parameter here. */
module ScheduleInfo {
  import opened Wrappers
  import opened Text
  import opened Calendar

  datatype RepItemScheduleInfo = RepItemScheduleInfo(
    dueDate: Option<Day>,
    interval: int,
    latestEase: int,
    delayedBeforeReviewTicks: Option<int>)

  /** The text written instead of a date for a card that has not been reviewed. */
  const DummyDueDateForNewCard: string := "2000-01-01"

  /** The day that text stands for. */
  function DummyDay(): Day {
    DayNumber(Date(2000, 1, 1))
  }

  lemma DigitsOfDummyDate()
    ensures PadNat(2000, 4) == "2000" && PadNat(1, 2) == "01"
  {
    assert NatToString(2) == "2";
    assert NatToString(20) == "20";
    assert NatToString(200) == "200";
    assert NatToString(2000) == "2000";
    assert NatToString(1) == "1";
  }

  /** The new-card date is written as the new-card text ... */
  lemma FormatDummyDay()
    ensures FormatDate(DummyDay()) == DummyDueDateForNewCard
  {
    DateOfDayNumber(Date(2000, 1, 1));
    DigitsOfDummyDate();
    assert DummyDueDateForNewCard == "2000" + "-" + "01" + "-" + "01";
  }

  /** ... and that text is read back as the new-card date. */
  lemma ParseDummyDueDate()
    ensures ParseDate(DummyDueDateForNewCard) == Some(DummyDay())
  {
    FormatDummyDay();
    ParseFormatDate(DummyDay());
  }

  /** `Math.round`: the nearest integer, halves rounded up. */
  function Round(x: real): (r: int)
    ensures r as real - 0.5 <= x < r as real + 0.5
  {
    (x + 0.5).Floor
  }

  /** Rounding an integer gives it back. */
  lemma RoundInteger(n: int)
    ensures Round(n as real) == n
  {
  }

  /** The constructor: the interval is rounded to a whole number of days; a schedule
      with a due date and no delay gets the delay from the due date to today. */
  function NewScheduleInfo(today: Day, dueDate: Option<Day>, interval: real, latestEase: int,
                           delayedBeforeReviewTicks: Option<int>): (s: RepItemScheduleInfo)
    ensures s.dueDate == dueDate && s.latestEase == latestEase
    ensures s.interval as real - 0.5 <= interval < s.interval as real + 0.5
    ensures dueDate.Some? && delayedBeforeReviewTicks.None?
            ==> s.delayedBeforeReviewTicks == Some((today - dueDate.value) * TicksPerDay)
    ensures dueDate.None? || delayedBeforeReviewTicks.Some?
            ==> s.delayedBeforeReviewTicks == delayedBeforeReviewTicks
  {
    var delay :=
      if dueDate.Some? && delayedBeforeReviewTicks.None?
      then Some((today - dueDate.value) * TicksPerDay)
      else delayedBeforeReviewTicks;
    RepItemScheduleInfo(dueDate, Round(interval), latestEase, delay)
  }

  /** `formatCardScheduleForHtmlComment`: `!date,interval,ease`, with the new-card
      date standing in for a missing due date. */
  function FormatCardScheduleForHtmlComment(s: RepItemScheduleInfo): string {
    "!" + DueDateText(s) + "," + IntToString(s.interval) + "," + IntToString(s.latestEase)
  }

  /** The date field of the written schedule. */
  function DueDateText(s: RepItemScheduleInfo): string {
    if s.dueDate.Some? then FormatDate(s.dueDate.value) else DummyDueDateForNewCard
  }

  /** A schedule the comment can hold and give back: a four-digit-year due date (if
      any), and an interval and ease that are not negative, as every scheduling
      rule produces. */
  predicate Writable(s: RepItemScheduleInfo) {
    s.interval >= 0 && s.latestEase >= 0
    && (s.dueDate.Some? ==> s.dueDate.value < FirstDayOfYear10000())
  }

  predicate AllWritable(infos: seq<RepItemScheduleInfo>) {
    forall k :: 0 <= k < |infos| ==> Writable(infos[k])
  }

  /** The date field is ten digits and dashes, and reads back as the due date, or as
      the new-card date when there is none. */
  lemma DueDateTextShape(s: RepItemScheduleInfo)
    requires Writable(s)
    ensures |DueDateText(s)| == 10
    ensures AllDateChars(DueDateText(s))
    ensures ParseDate(DueDateText(s)) == Some(if s.dueDate.Some? then s.dueDate.value else DummyDay())
  {
    if s.dueDate.Some? {
      FormatDateShape(s.dueDate.value);
      ParseFormatDate(s.dueDate.value);
    } else {
      FormatDummyDay();
      ParseDummyDueDate();
      FormatDateShape(DummyDay());
    }
  }

  /** A schedule without a due date is written exactly like one due on the
      new-card date. */
  lemma FormatWithoutDueDate(s: RepItemScheduleInfo)
    requires s.dueDate.None?
    ensures FormatCardScheduleForHtmlComment(s)
            == FormatCardScheduleForHtmlComment(s.(dueDate := Some(DummyDay())))
  {
    FormatDummyDay();
  }

  /** `initialInterval`. */
  const InitialInterval: real := 1.0

  /** `moment.add(x, "d")` moves by a whole number of days: fractions are rounded
      to the nearest day, halves away from zero. */
  function MomentDays(x: real): int {
    if x >= 0.0 then Round(x) else -Round(-x)
  }

  /** `create(interval, ease)`: due `interval` days after today, reviewed without delay. */
  function Create(today: Day, interval: real, ease: int): (s: RepItemScheduleInfo)
    requires interval >= 0.0
    ensures s.dueDate == Some(today + s.interval)
    ensures s.interval >= 0 && s.interval as real - 0.5 <= interval < s.interval as real + 0.5
    ensures s.latestEase == ease && s.delayedBeforeReviewTicks == Some(0)
  {
    NewScheduleInfo(today, Some(today + MomentDays(interval)), interval, ease, Some(0))
  }

  /** `getDummyScheduleForNewCard`: due on the new-card date, interval 1, base ease. */
  function GetDummyScheduleForNewCard(today: Day, baseEase: int): (s: RepItemScheduleInfo)
    ensures s.dueDate == Some(DummyDay()) && s.interval == 1 && s.latestEase == baseEase
    ensures s.delayedBeforeReviewTicks == Some((today - DummyDay()) * TicksPerDay)
  {
    NewScheduleInfo(today, Some(DummyDay()), InitialInterval, baseEase, None)
  }
}
