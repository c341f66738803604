/** What `AddressBook.get_upcoming_birthdays` computes, entry by entry, with
    `today` given instead of read from the clock. */
module Birthdays {
  import opened Outcomes
  import opened Calendar
  import opened Fields
  import opened Seqs

  /** A contact as the query sees it: its name and its birthday, if any. */
  datatype Entry = Entry(name: string, birthday: Option<CalendarDate>)

  /** A contact to greet and the weekday to greet them on. */
  datatype Greeting = Greeting(name: string, date: CalendarDate)

  /** `d.replace(year=y)`: the same month and day in year `y`, or the
      error `date` raises when the year or the day is out of range. */
  function ReplaceYear(d: CalendarDate, y: int): (r: Result<CalendarDate>)
    ensures r.Ok? <==> MinYear <= y <= MaxYear && d.day <= DaysInMonth(y, d.month)
    ensures r.Ok? ==> r.value == Date(y, d.month, d.day)
    ensures r.Err? ==> r.error == (if MinYear <= y <= MaxYear then DayOutOfRange(d.day) else YearOutOfRange(y))
  {
    if !(MinYear <= y <= MaxYear) then Err(YearOutOfRange(y))
    else if d.day > DaysInMonth(y, d.month) then Err(DayOutOfRange(d.day))
    else Ok(Date(y, d.month, d.day))
  }

  predicate IsLeapDay(d: Date) {
    d.month == 2 && d.day == 29
  }

  /** The birthday moved into today's year, and into the next year when
      that date has already passed. */
  function NextOccurrence(birthday: CalendarDate, today: CalendarDate): (r: Result<CalendarDate>)
    ensures r.Ok? ==> r.value.month == birthday.month && r.value.day == birthday.day
    ensures r.Ok? ==> !Before(r.value, today)
    ensures r.Ok? ==> r.value.year == today.year
                      || (r.value.year == today.year + 1 && Before(Date(today.year, birthday.month, birthday.day), today))
    ensures r.Err? <==>
      || (IsLeapDay(birthday) && (!IsLeap(today.year) || Before(Date(today.year, 2, 29), today)))
      || (today.year == MaxYear && Before(Date(today.year, birthday.month, birthday.day), today))
  {
    var thisYear :- ReplaceYear(birthday, today.year);
    if Before(thisYear, today) then ReplaceYear(thisYear, today.year + 1) else Ok(thisYear)
  }

  /** How many days the weekend shift still has to go: 2 from Saturday,
      1 from Sunday, none from a weekday. */
  function WeekendLeft(d: CalendarDate): nat {
    if Weekday(d) == 5 then 2 else if Weekday(d) == 6 then 1 else 0
  }

  /** The weekend shift: a Saturday or Sunday moves on to the next Monday,
      a weekday stays where it is. */
  function ToWeekday(d: CalendarDate): (r: CalendarDate)
    ensures Weekday(r) < 5
    ensures Ordinal(r) == Ordinal(d) + WeekendLeft(d)
    decreases WeekendLeft(d)
  {
    if Weekday(d) >= 5 then
      LastDateIsFriday();
      NextDayWeekday(d);
      ToWeekday(NextDay(d))
    else d
  }

  /** One pass of the loop body: skip a contact without a birthday, raise
      what `replace` raises, else greet on the shifted date when it is 1
      to 7 days after today. */
  function Consider(e: Entry, today: CalendarDate): (r: Result<Option<Greeting>>)
    ensures e.birthday.None? ==> r == Ok(None)
    ensures e.birthday.Some? ==> (r.Err? <==> NextOccurrence(e.birthday.value, today).Err?)
    ensures r.Ok? && r.value.Some? ==>
      && e.birthday.Some?
      && NextOccurrence(e.birthday.value, today).Ok?
      && var g := r.value.value;
      && var occurrence := NextOccurrence(e.birthday.value, today).value;
      && g.name == e.name
      && Weekday(g.date) < 5
      && 1 <= DaysBetween(today, g.date) <= 7
      && DaysBetween(occurrence, g.date) == WeekendLeft(occurrence)
    ensures r.Ok? && e.birthday.Some? ==>
      (r.value.Some? <==> 1 <= DaysBetween(today, ToWeekday(NextOccurrence(e.birthday.value, today).value)) <= 7)
  {
    match e.birthday
    case None => Ok(None)
    case Some(b) =>
      var occurrence :- NextOccurrence(b, today);
      var shifted := ToWeekday(occurrence);
      if 1 <= DaysBetween(today, shifted) <= 7 then Ok(Some(Greeting(e.name, shifted))) else Ok(None)
  }

  /** The whole query over the contacts in the book's order: the greetings
      in that order, or the first error a contact raises. */
  function Upcoming(entries: seq<Entry>, today: CalendarDate): (r: Result<seq<Greeting>>)
    ensures r.Ok? ==> forall g :: g in r.value ==> Weekday(g.date) < 5 && 1 <= DaysBetween(today, g.date) <= 7
    decreases |entries|
  {
    if entries == [] then Ok([])
    else
      var earlier :- Upcoming(entries[..|entries| - 1], today);
      var greeting :- Consider(entries[|entries| - 1], today);
      Ok(earlier + (if greeting.Some? then [greeting.value] else []))
  }

  /** One line of the result, `name: DD.MM.YYYY`: the name, a colon and a
      space, then a date text that reads back as the greeting's date. */
  function Render(g: Greeting): (line: string)
    ensures |line| == |g.name| + 12
    ensures line[..|g.name|] == g.name && line[|g.name|..|g.name| + 2] == ": "
  {
    g.name + ": " + FormatDate(g.date)
  }

  /** The date part of a line reads back, as `Birthday` reads its text,
      as the greeting's date. */
  lemma RenderedDateReadsBack(g: Greeting)
    ensures ParseBirthday(Render(g)[|g.name| + 2..]) == Ok(g.date)
  {
    assert Render(g)[|g.name| + 2..] == FormatDate(g.date);
    FormatParseRoundTrip(g.date);
  }

  /** The greetings as lines, one for each, in the same order. */
  function RenderAll(greetings: seq<Greeting>): (lines: seq<string>)
    ensures |lines| == |greetings|
    ensures forall k :: 0 <= k < |greetings| ==> lines[k] == Render(greetings[k])
    decreases |greetings|
  {
    if greetings == [] then [] else RenderAll(greetings[..|greetings| - 1]) + [Render(greetings[|greetings| - 1])]
  }

  /** The query's result as the list of lines it returns. */
  function Rendered(r: Result<seq<Greeting>>): Result<seq<string>> {
    match r
    case Ok(greetings) => Ok(RenderAll(greetings))
    case Err(e) => Err(e)
  }

  /** The names the greetings are for, in order. */
  function Names(greetings: seq<Greeting>): seq<string> {
    seq(|greetings|, i requires 0 <= i < |greetings| => greetings[i].name)
  }

  /** The contacts' names, in order. */
  function EntryNames(entries: seq<Entry>): seq<string> {
    seq(|entries|, i requires 0 <= i < |entries| => entries[i].name)
  }

  /** `e`'s pass of the loop body greets `g`. */
  predicate Greets(e: Entry, today: CalendarDate, g: Greeting) {
    Consider(e, today) == Ok(Some(g))
  }

  /** A greeting is reported exactly when some contact's pass of the loop
      produces it. */
  lemma {:induction false} UpcomingMembers(entries: seq<Entry>, today: CalendarDate, g: Greeting)
    requires Upcoming(entries, today).Ok?
    ensures g in Upcoming(entries, today).value <==> exists k :: 0 <= k < |entries| && Greets(entries[k], today, g)
    decreases |entries|
  {
    if entries != [] {
      var n := |entries| - 1;
      var init := entries[..n];
      UpcomingMembers(init, today, g);
      var earlier := Upcoming(init, today).value;
      var greeting := Consider(entries[n], today).value;
      var tail := if greeting.Some? then [greeting.value] else [];
      assert Upcoming(entries, today).value == earlier + tail;
      if g in earlier {
        var k :| 0 <= k < |init| && Greets(init[k], today, g);
        assert entries[k] == init[k];
      } else if g in tail {
        assert Greets(entries[n], today, g);
      }
      if exists k :: 0 <= k < |entries| && Greets(entries[k], today, g) {
        var k :| 0 <= k < |entries| && Greets(entries[k], today, g);
        if k < n {
          assert init[k] == entries[k];
        } else {
          assert k == n && Greets(entries[n], today, g);
          assert greeting == Some(g);
        }
      }
    }
  }

  /** The greetings keep the book's order: their names are the contacts'
      names with some left out. */
  lemma {:induction false} UpcomingKeepsOrder(entries: seq<Entry>, today: CalendarDate)
    requires Upcoming(entries, today).Ok?
    ensures IsSubsequence(Names(Upcoming(entries, today).value), EntryNames(entries))
    decreases |entries|
  {
    if entries != [] {
      var n := |entries| - 1;
      var earlier, tail := UpcomingSplit(entries, today);
      UpcomingKeepsOrder(entries[..n], today);
      KeepsOrderStep(earlier, entries, tail);
    }
  }

  /** The query over a non-empty list is the query over all but the last
      contact, then at most one greeting, for that last contact. */
  lemma UpcomingSplit(entries: seq<Entry>, today: CalendarDate) returns (earlier: seq<Greeting>, tail: seq<Greeting>)
    requires entries != [] && Upcoming(entries, today).Ok?
    ensures Upcoming(entries[..|entries| - 1], today) == Ok(earlier)
    ensures Upcoming(entries, today).value == earlier + tail
    ensures tail == [] || (|tail| == 1 && tail[0].name == entries[|entries| - 1].name)
  {
    earlier := Upcoming(entries[..|entries| - 1], today).value;
    var greeting := Consider(entries[|entries| - 1], today).value;
    tail := if greeting.Some? then [greeting.value] else [];
  }

  /** Adding at most one name, the last contact's, to the greetings keeps
      them in the contacts' order. */
  lemma KeepsOrderStep(greetings: seq<Greeting>, entries: seq<Entry>, tail: seq<Greeting>)
    requires entries != []
    requires IsSubsequence(Names(greetings), EntryNames(entries[..|entries| - 1]))
    requires tail == [] || (|tail| == 1 && tail[0].name == entries[|entries| - 1].name)
    ensures IsSubsequence(Names(greetings + tail), EntryNames(entries))
  {
    var names := EntryNames(entries);
    assert names[..|names| - 1] == EntryNames(entries[..|entries| - 1]);
    var ns := Names(greetings + tail);
    if tail == [] {
      assert ns == Names(greetings);
    } else {
      assert ns[..|ns| - 1] == Names(greetings);
    }
  }

  /** One contact whose pass raises makes the whole query raise. */
  lemma {:induction false} UpcomingFailsWithEntry(entries: seq<Entry>, today: CalendarDate, k: int)
    requires 0 <= k < |entries| && Consider(entries[k], today).Err?
    ensures Upcoming(entries, today).Err?
    decreases |entries|
  {
    if k < |entries| - 1 {
      var init := entries[..|entries| - 1];
      assert init[k] == entries[k];
      UpcomingFailsWithEntry(init, today, k);
    }
  }

  /** One more contact adds its greeting, if any, at the end. */
  lemma UpcomingStep(entries: seq<Entry>, today: CalendarDate, i: int, earlier: seq<Greeting>, g: Option<Greeting>)
    requires 0 <= i < |entries| && Upcoming(entries[..i], today) == Ok(earlier) && Consider(entries[i], today) == Ok(g)
    ensures Upcoming(entries[..i + 1], today) == Ok(earlier + if g.Some? then [g.value] else [])
  {
    assert entries[..i + 1][..i] == entries[..i];
  }

  /** Once a prefix of the contacts raises, the query raises that error. */
  lemma {:induction false} UpcomingErrorPersists(entries: seq<Entry>, today: CalendarDate, j: int)
    requires 0 <= j <= |entries| && Upcoming(entries[..j], today).Err?
    ensures Upcoming(entries, today) == Upcoming(entries[..j], today)
    decreases |entries| - j
  {
    if j < |entries| {
      var n := |entries| - 1;
      assert entries[..n][..j] == entries[..j];
      UpcomingErrorPersists(entries[..n], today, j);
    } else {
      assert entries[..j] == entries;
    }
  }

  /** The first contact whose pass raises decides the query's error. */
  lemma UpcomingFirstError(entries: seq<Entry>, today: CalendarDate, i: int)
    requires 0 <= i < |entries| && Upcoming(entries[..i], today).Ok? && Consider(entries[i], today).Err?
    ensures Upcoming(entries, today) == Err(Consider(entries[i], today).error)
  {
    assert entries[..i + 1][..i] == entries[..i];
    UpcomingErrorPersists(entries, today, i + 1);
  }

  /** When no contact's pass raises, the query returns its list. */
  lemma {:induction false} UpcomingSucceeds(entries: seq<Entry>, today: CalendarDate)
    requires forall k :: 0 <= k < |entries| ==> Consider(entries[k], today).Ok?
    ensures Upcoming(entries, today).Ok?
    decreases |entries|
  {
    if entries != [] {
      var init := entries[..|entries| - 1];
      assert forall k :: 0 <= k < |init| ==> init[k] == entries[k];
      UpcomingSucceeds(init, today);
    }
  }

  /** A contact born on 29 February makes the whole query raise in any
      year that is not a leap year. */
  lemma LeapDayBirthdayFailsQuery(entries: seq<Entry>, today: CalendarDate, k: int)
    requires 0 <= k < |entries| && entries[k].birthday.Some? && IsLeapDay(entries[k].birthday.value)
    requires !IsLeap(today.year)
    ensures Upcoming(entries, today).Err?
  {
    UpcomingFailsWithEntry(entries, today, k);
  }

  /** Without a 29 February birthday and before the year 9999, the query
      always returns its list. */
  lemma QuerySucceedsWithoutLeapDays(entries: seq<Entry>, today: CalendarDate)
    requires forall k :: 0 <= k < |entries| && entries[k].birthday.Some? ==> !IsLeapDay(entries[k].birthday.value)
    requires today.year < MaxYear
    ensures Upcoming(entries, today).Ok?
  {
    UpcomingSucceeds(entries, today);
  }

  /** A birthday falling on today, a weekday, is not reported: it is 0 days away. */
  lemma BirthdayTodayOnWeekdayExcluded(e: Entry, today: CalendarDate)
    requires e.birthday.Some? && e.birthday.value.month == today.month && e.birthday.value.day == today.day
    requires Weekday(today) < 5
    ensures Consider(e, today) == Ok(None)
  {
    assert NextOccurrence(e.birthday.value, today) == Ok(today);
  }

  /** A birthday falling on today, a Saturday, is moved to Monday and so
      is reported two days ahead. */
  lemma BirthdayTodayOnSaturdayReported(e: Entry, today: CalendarDate)
    requires e.birthday.Some? && e.birthday.value.month == today.month && e.birthday.value.day == today.day
    requires Weekday(today) == 5
    ensures Consider(e, today).Ok? && Consider(e, today).value.Some?
    ensures DaysBetween(today, Consider(e, today).value.value.date) == 2
  {
    assert NextOccurrence(e.birthday.value, today) == Ok(today);
  }

  /** Today is Friday 14 June 2024: a birthday on Saturday the 15th is
      greeted on Monday the 17th, three days ahead. */
  lemma SaturdayBirthdayMovesToMonday()
    ensures Consider(Entry("Ann", Some(Date(1990, 6, 15))), Date(2024, 6, 14)) == Ok(Some(Greeting("Ann", Date(2024, 6, 17))))
  {
    var today, saturday := Date(2024, 6, 14), Date(2024, 6, 15);
    assert NextOccurrence(Date(1990, 6, 15), today) == Ok(saturday);
    assert Weekday(saturday) == 5;
    assert NextDay(saturday) == Date(2024, 6, 16);
    assert NextDay(Date(2024, 6, 16)) == Date(2024, 6, 17);
    assert ToWeekday(saturday) == Date(2024, 6, 17);
  }

  /** The line reported for that greeting. */
  lemma MondayGreetingLine()
    ensures Render(Greeting("Ann", Date(2024, 6, 17))) == "Ann: 17.06.2024"
  {
    assert FormatDate(Date(2024, 6, 17)) == "17.06.2024";
  }

  /** With the same today, a birthday on the 25th is 11 days away and is
      not reported. */
  lemma BirthdayElevenDaysAwayExcluded()
    ensures Consider(Entry("Cid", Some(Date(1985, 6, 25))), Date(2024, 6, 14)) == Ok(None)
  {
    var today, tuesday := Date(2024, 6, 14), Date(2024, 6, 25);
    assert NextOccurrence(Date(1985, 6, 25), today) == Ok(tuesday);
    assert Weekday(tuesday) == 1;
  }
}
