/**
 * Holidays: `parseDateIntervals`, `isDateInIntervals` and the fail-open
 * composition `isHoliday`.  The holiday text itself comes from a remote
 * resource; here it is an input, `None` when fetching or decoding it failed.
 */
module Holidays {
  import opened Wrappers
  import opened Text
  import opened Calendar

  /** One entry of the holiday list (`[2]time.Time`); both ends hold the same parsed day. */
  type Interval = (Date, Date)

  /** Every token parses with the layout "02/01". */
  predicate TokensParse(tokens: seq<string>) {
    forall i :: 0 <= i < |tokens| ==> ParseDayMonth(tokens[i]).Some?
  }

  /**
   * `parseDateIntervals`: split on '-', parse each token as "dd/mm" and keep
   * it as the degenerate pair [d, d]; one bad token fails the whole parse.
   */
  method ParseDateIntervals(input: string) returns (r: Option<seq<Interval>>)
    ensures r.Some? <==> TokensParse(Split(input, '-'))
    ensures r.Some? ==>
      var tokens := Split(input, '-');
      |r.value| == |tokens|
      && forall i :: 0 <= i < |tokens| ==>
           r.value[i] == (ParseDayMonth(tokens[i]).value, ParseDayMonth(tokens[i]).value)
  {
    var tokens := Split(input, '-');
    var intervals: seq<Interval> := [];
    for i := 0 to |tokens|
      invariant |intervals| == i
      invariant TokensParse(tokens[..i])
      invariant forall k :: 0 <= k < i ==>
        intervals[k] == (ParseDayMonth(tokens[k]).value, ParseDayMonth(tokens[k]).value)
    {
      var day := ParseDayMonth(tokens[i]);
      if day.None? {
        assert !TokensParse(tokens);
        return None;
      }
      intervals := intervals + [(day.value, day.value)];
    }
    assert tokens[..|tokens|] == tokens;
    return Some(intervals);
  }

  /** `isDateInIntervals`: some entry has the date's month and day; years and second ends are ignored. */
  function IsDateInIntervals(date: Date, intervals: seq<Interval>): (found: bool)
    ensures found <==> exists i :: 0 <= i < |intervals|
                          && intervals[i].0.month == date.month && intervals[i].0.day == date.day
  {
    if intervals == [] then false
    else
      (intervals[0].0.month == date.month && intervals[0].0.day == date.day)
      || (assert forall i :: 1 <= i < |intervals| ==> intervals[i] == intervals[1..][i - 1];
          IsDateInIntervals(date, intervals[1..]))
  }

  /** The holiday text is well formed and one of its tokens names the date's day and month. */
  predicate ListedHoliday(date: Date, text: string) {
    var tokens := Split(text, '-');
    TokensParse(tokens)
    && exists i :: 0 <= i < |tokens|
         && ParseDayMonth(tokens[i]).value.month == date.month
         && ParseDayMonth(tokens[i]).value.day == date.day
  }

  /**
   * `isHoliday`: fails open.  A failed fetch or decode (`feed == None`) and
   * a malformed holiday text both answer "not a holiday".
   */
  method IsHoliday(date: Date, feed: Option<string>) returns (holiday: bool)
    ensures holiday <==> feed.Some? && ListedHoliday(date, feed.value)
  {
    if feed.None? {
      return false;
    }
    var intervals := ParseDateIntervals(feed.value);
    if intervals.None? {
      return false;
    }
    holiday := IsDateInIntervals(date, intervals.value);
    ghost var tokens := Split(feed.value, '-');
    if holiday {
      var i :| 0 <= i < |intervals.value|
               && intervals.value[i].0.month == date.month && intervals.value[i].0.day == date.day;
      assert ParseDayMonth(tokens[i]).value == intervals.value[i].0;
    }
  }

  /**
   * A text of k well-formed "dd/mm" tokens joined by '-' splits back into
   * exactly those k tokens, in order; so it parses to k pairs, one per token.
   */
  lemma {:induction false} JoinedTokensParse(tokens: seq<string>)
    requires |tokens| >= 1 && TokensParse(tokens)
    ensures Split(Join(tokens, '-'), '-') == tokens
    ensures TokensParse(Split(Join(tokens, '-'), '-'))
  {
    forall i | 0 <= i < |tokens|
      ensures '-' !in tokens[i]
    {
      var t := tokens[i];
      assert |t| == 5 && t[2] == '/';
      assert IsDigit(t[0]) && IsDigit(t[1]) && IsDigit(t[3]) && IsDigit(t[4]);
    }
    JoinSplit(tokens, '-');
  }

  /** The empty text is one empty token, which does not parse: nothing is a holiday. */
  lemma EmptyTextHasNoHolidays(date: Date)
    ensures !ListedHoliday(date, "")
  {
    assert Split("", '-') == [""];
  }

  /** Holidays recur every year: only the day and the month take part. */
  lemma ListedHolidayIgnoresYear(a: Date, b: Date, text: string)
    requires a.month == b.month && a.day == b.day
    ensures ListedHoliday(a, text) <==> ListedHoliday(b, text)
  {
  }

  /**
   * A day is listed exactly when the text is well formed and one of its
   * tokens is that day's own "dd/mm" text.
   */
  lemma ListedHolidayByText(date: Date, text: string)
    requires ValidDate(Date(0, date.month, date.day))
    ensures ListedHoliday(date, text)
        <==> TokensParse(Split(text, '-')) && Pad2(date.day) + "/" + Pad2(date.month) in Split(text, '-')
  {
    var tokens := Split(text, '-');
    var own := Pad2(date.day) + "/" + Pad2(date.month);
    if ListedHoliday(date, text) {
      var i :| 0 <= i < |tokens|
               && ParseDayMonth(tokens[i]).value.month == date.month
               && ParseDayMonth(tokens[i]).value.day == date.day;
      FormatParseDayMonth(tokens[i]);
      assert tokens[i] == own;
    }
    if TokensParse(tokens) && own in tokens {
      var i :| 0 <= i < |tokens| && tokens[i] == own;
      ParseFormatDayMonth(Date(0, date.month, date.day));
      assert ParseDayMonth(tokens[i]) == Some(Date(0, date.month, date.day));
    }
  }

  /** The text "25/12-01/01" marks Christmas and New Year's Day of every year, and no other day. */
  lemma ChristmasAndNewYear(date: Date, text: string)
    requires text == "25/12-01/01"
    ensures ListedHoliday(date, text)
        <==> (date.month == 12 && date.day == 25) || (date.month == 1 && date.day == 1)
  {
    var christmas, newYear := "25/12", "01/01";
    assert ParseDayMonth(christmas) == Some(Date(0, 12, 25));
    assert ParseDayMonth(newYear) == Some(Date(0, 1, 1));
    JoinedTokensParse([christmas, newYear]);
    assert Join([christmas, newYear], '-') == text;
    var tokens := Split(text, '-');
    assert tokens == [christmas, newYear];
    if date.month == 12 && date.day == 25 {
      assert ParseDayMonth(tokens[0]).value.month == date.month;
    }
    if date.month == 1 && date.day == 1 {
      assert ParseDayMonth(tokens[1]).value.month == date.month;
    }
  }
}
