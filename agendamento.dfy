/**
 * The GET branch of the scheduling endpoint: the day gate, the two feeds,
 * the tallies and the answer, in the order the handler runs them; and the
 * agenda-code cutoff of the POST branch.
 *
 * The feeds, the holiday resource and the clock are inputs.  The clock is
 * given as two calendar days, because the handler mixes two notions of
 * today: the past check truncates the current instant to a whole UTC day,
 * while "today" for the elapsed-slot filter is the calendar day in GMT-3.
 */
module Agendamento {
  import opened Wrappers
  import opened Text
  import opened Calendar
  import opened Holidays
  import opened Tally
  import opened Slots

  /** What one feed produced: a failed call, a body that does not decode, or its records. */
  datatype FeedReply = FetchFailed | Unreadable | Records(items: seq<Horario>)

  /**
   * The current time: `utcDay` is the day of `now.Truncate(24h)`, `localDay`
   * the day of `now` in GMT-3, `hour` and `minute` the GMT-3 time of day.
   */
  datatype Clock = Clock(utcDay: Date, localDay: Date, hour: int, minute: int)

  predicate ValidClock(clock: Clock) {
    Printable(clock.utcDay) && Printable(clock.localDay)
    && 0 <= clock.hour < 24 && 0 <= clock.minute < 60
  }

  /** The rejections of the GET branch, in the order the handler can produce them. */
  datatype Rejection =
    | MissingDate          // no `data` parameter
    | BadDate              // `data` is not a "dd/mm/yyyy" date
    | Weekend              // the date is a Saturday or a Sunday
    | PrimaryFetchFailed   // the general booking feed could not be fetched
    | ProtegerFetchFailed  // the "Agenda Proteger" feed could not be fetched
    | PrimaryUnreadable    // the general feed's body does not decode
    | ProtegerUnreadable   // the "Agenda Proteger" feed's body does not decode
    | PastDay              // the date is before today
    | Holiday              // the date is a listed holiday
    | BadRecordDate        // a record of either feed carries an unparseable date

  /** A yes/no answer for one slot (`hora` given), or the open slots of the day. */
  datatype Answer = SlotAnswer(available: bool) | DayListing(slots: seq<Horario>)

  /** The date parses and is a weekday: the feeds are consulted. */
  predicate WeekdayRequest(dataParam: string) {
    ParseDate(dataParam).Some? && !IsWeekend(ParseDate(dataParam).value)
  }

  /** The request passes every gate up to and including the holiday check. */
  predicate BookableDay(dataParam: string, primaryFeed: FeedReply, protegerFeed: FeedReply,
                        holidayFeed: Option<string>, clock: Clock)
  {
    WeekdayRequest(dataParam) && primaryFeed.Records? && protegerFeed.Records?
    && !Before(ParseDate(dataParam).value, clock.utcDay)
    && !(holidayFeed.Some? && ListedHoliday(ParseDate(dataParam).value, holidayFeed.value))
  }

  /** The decision rule stated on the raw record counts of both feeds. */
  predicate OpenByCounts(primary: seq<Horario>, proteger: seq<Horario>, day: Date, slot: string) {
    Count(primary, day, slot) > 0 && (Count(proteger, day, slot) == 2 || Count(proteger, day, slot) == 3)
  }

  /**
   * The GET branch of `handleAgendamento`.  Gates run in this order: missing
   * date, malformed date, weekend (before any feed is consulted), feed fetch
   * failures, undecodable feed bodies, past day, holiday (fail-open), records
   * with unparseable dates.  With `hora` the rule is applied to that text as
   * it is; without it the working slots are listed.
   */
  method HandleGet(dataParam: string, hourParam: string, primaryFeed: FeedReply, protegerFeed: FeedReply,
                   holidayFeed: Option<string>, clock: Clock)
    returns (resp: Result<Answer, Rejection>)
    requires ValidClock(clock)
    ensures resp == Failure(MissingDate) <==> dataParam == ""
    ensures resp == Failure(BadDate) <==> dataParam != "" && ParseDate(dataParam).None?
    ensures resp == Failure(Weekend) <==> ParseDate(dataParam).Some? && IsWeekend(ParseDate(dataParam).value)
    ensures resp == Failure(PrimaryFetchFailed) <==> WeekdayRequest(dataParam) && primaryFeed.FetchFailed?
    ensures resp == Failure(ProtegerFetchFailed) <==>
      WeekdayRequest(dataParam) && !primaryFeed.FetchFailed? && protegerFeed.FetchFailed?
    ensures resp == Failure(PrimaryUnreadable) <==>
      WeekdayRequest(dataParam) && primaryFeed.Unreadable? && !protegerFeed.FetchFailed?
    ensures resp == Failure(ProtegerUnreadable) <==>
      WeekdayRequest(dataParam) && primaryFeed.Records? && protegerFeed.Unreadable?
    ensures resp == Failure(PastDay) <==>
      WeekdayRequest(dataParam) && primaryFeed.Records? && protegerFeed.Records?
      && Before(ParseDate(dataParam).value, clock.utcDay)
    ensures resp == Failure(Holiday) <==>
      WeekdayRequest(dataParam) && primaryFeed.Records? && protegerFeed.Records?
      && !Before(ParseDate(dataParam).value, clock.utcDay)
      && holidayFeed.Some? && ListedHoliday(ParseDate(dataParam).value, holidayFeed.value)
    ensures resp == Failure(BadRecordDate) <==>
      BookableDay(dataParam, primaryFeed, protegerFeed, holidayFeed, clock)
      && !(DatesParse(primaryFeed.items) && DatesParse(protegerFeed.items))
    ensures resp.Success? <==>
      BookableDay(dataParam, primaryFeed, protegerFeed, holidayFeed, clock)
      && DatesParse(primaryFeed.items) && DatesParse(protegerFeed.items)
    ensures resp.Success? && hourParam != "" ==>
      resp.value == SlotAnswer(OpenByCounts(primaryFeed.items, protegerFeed.items,
                                            ParseDate(dataParam).value, hourParam))
    ensures resp.Success? && hourParam == "" ==>
      var day := ParseDate(dataParam).value;
      var now := ClockText(clock.hour, clock.minute);
      resp.value.DayListing?
      && (forall k :: 0 <= k < |resp.value.slots| ==> resp.value.slots[k].data == dataParam)
      && (forall s :: s in SlotTexts(resp.value.slots) <==>
            s in WorkSlots && !(day == clock.localDay && LexLe(s, now))
            && OpenByCounts(primaryFeed.items, protegerFeed.items, day, s))
      && (forall j, k :: 0 <= j < k < |resp.value.slots| ==>
            LexLt(resp.value.slots[j].horario, resp.value.slots[k].horario))
  {
    if dataParam == "" {
      return Failure(MissingDate);
    }
    var parsed := ParseDate(dataParam);
    if parsed.None? {
      return Failure(BadDate);
    }
    var day := parsed.value;
    if IsWeekend(day) {
      return Failure(Weekend);
    }
    if primaryFeed.FetchFailed? {
      return Failure(PrimaryFetchFailed);
    }
    if protegerFeed.FetchFailed? {
      return Failure(ProtegerFetchFailed);
    }
    if primaryFeed.Unreadable? {
      return Failure(PrimaryUnreadable);
    }
    if protegerFeed.Unreadable? {
      return Failure(ProtegerUnreadable);
    }
    if Before(day, clock.utcDay) {
      return Failure(PastDay);
    }
    var holiday := IsHoliday(day, holidayFeed);
    if holiday {
      return Failure(Holiday);
    }
    var primary := TallyFeed(primaryFeed.items, day);
    if primary.None? {
      return Failure(BadRecordDate);
    }
    var proteger := TallyFeed(protegerFeed.items, day);
    if proteger.None? {
      return Failure(BadRecordDate);
    }
    var answer := Decide(dataParam, day, hourParam, primary.value, proteger.value, clock,
                         primaryFeed.items, protegerFeed.items);
    return Success(answer);
  }

  /**
   * The rest of the GET branch once both tallies exist: the logged Proteger
   * counter, the clamp with the logged client total, then the single-slot
   * answer or the day listing.
   */
  method Decide(dataParam: string, day: Date, hourParam: string,
                primary: map<string, int>, proteger: map<string, int>, clock: Clock,
                ghost primaryRecords: seq<Horario>, ghost protegerRecords: seq<Horario>)
    returns (answer: Answer)
    requires ValidClock(clock) && ParseDate(dataParam) == Some(day)
    requires forall s :: Lookup(primary, s) == Count(primaryRecords, day, s)
    requires forall s :: Lookup(proteger, s) == Count(protegerRecords, day, s)
    ensures hourParam != "" ==> answer == SlotAnswer(OpenByCounts(primaryRecords, protegerRecords, day, hourParam))
    ensures hourParam == "" ==>
      var now := ClockText(clock.hour, clock.minute);
      answer.DayListing?
      && (forall k :: 0 <= k < |answer.slots| ==> answer.slots[k].data == dataParam)
      && (forall s :: s in SlotTexts(answer.slots) <==>
            s in WorkSlots && !(day == clock.localDay && LexLe(s, now))
            && OpenByCounts(primaryRecords, protegerRecords, day, s))
      && (forall j, k :: 0 <= j < k < |answer.slots| ==>
            LexLt(answer.slots[j].horario, answer.slots[k].horario))
  {
    var protegerOpen := CountProtegerOpen(proteger);
    var clamped, clients := ClampPrimary(primary);
    if hourParam != "" {
      return SlotAnswer(SlotOpen(clamped, proteger, hourParam));
    }
    var dayText := FormatDate(day);
    var today := FormatDate(clock.localDay);
    FormatParseDate(dataParam);
    FormatDateInjective(day, clock.localDay);
    var now := ClockText(clock.hour, clock.minute);
    var open := ListOpenSlots(dayText, dayText == today, now, clamped, proteger);
    answer := DayListing(open);
  }

  /** First day served by the newer agenda. */
  const NewAgendaStart := Date(2024, 12, 1)

  /**
   * The POST branch's agenda code for a parsed booking date: bookings dated
   * before 1 December 2024 go to agenda "27295", all later ones to agenda
   * "3015983".
   */
  function AgendaCode(day: Date): (code: string)
    requires ValidDate(day)
    ensures code == "27295" || code == "3015983"
    ensures code == "27295" <==> day.year < 2024 || (day.year == 2024 && day.month < 12)
  {
    if Before(day, NewAgendaStart) then "27295" else "3015983"
  }
}
