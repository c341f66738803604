# Contact book: a Dafny model

This project models the core of a console contact book (`1-bot-upd5.py`):

- the validated value types `Phone` (exactly ten digits) and `Birthday` (text read with `strptime(text, "%d.%m.%Y")` into a calendar date);
- `Record`, one contact with a name, an ordered list of phones that may repeat and a birthday that can be set once, whose methods change it in place;
- `AddressBook`, a dictionary from name to `Record` with `add_record`, `find` and `delete`;
- `get_upcoming_birthdays`, which moves each birthday to its next occurrence, steps a weekend date on to Monday, and reports the contacts whose (shifted) date is 1 to 7 days after today.

Modules, one per part of the program:

- `Outcomes` (`outcomes.dfy`): `Option`, `Result`, `Outcome` and the `Error` values that stand for the exceptions the core raises.
- `Seqs` (`seqs.dfy`): removing every copy of an element from a sequence (used by `remove_phone` and by deleting a dictionary key), subsequences, distinctness.
- `Calendar` (`calendar.dfy`): Python's `date`: years 1 to 9999, leap years, `toordinal`, `weekday`, adding one day, date comparison.
- `Fields` (`fields.dfy`): phone validation, the `%d.%m.%Y` parser and the `DD.MM.YYYY` formatter.
- `Contacts` (`contacts.dfy`): the `Record` class.
- `Birthdays` (`birthdays.dfy`): the birthday query as functions over the contacts in iteration order, and its properties.
- `Book` (`address_book.dfy`): the `AddressBook` class, with the query as a loop proved equal to the `Birthdays` functions.

The clock is not read: `today` is a parameter of the query. Exceptions become `Err`/`Fail` results. The dictionary keeps its iteration order in a field `order`; a replaced key keeps its place, a new key goes last, a deleted key leaves.

Three behaviours of the code that a reader might not expect. The model keeps each one as the code has it:

- Day and month need not be two digits. The parser also accepts a one-digit day or month, and a day written as a space then a digit (`" 5.3.2024"`).
- There is no policy for 29 February in a non-leap year: `replace(year=...)` raises, so the whole query fails. The same happens when a 29 February birthday has passed in a leap year, because next year is not a leap year. In year 9999 a passed birthday cannot move to year 10000, and the query raises there too.
- A birthday falling today is excluded only when today is a weekday. On a Saturday the date moves to Monday, two days ahead, and is reported (`BirthdayTodayOnSaturdayReported`).

## Model

| member | source | states |
|---|---|---|
| Fields.IsDigits | 1-bot-upd5.py:35 | `isdigit` holds exactly for non-empty text whose every character is a digit |
| Fields.NewPhone | 1-bot-upd5.py:34-38 | a `Phone` is built exactly when the text has length 10 and is all digits, and it then holds that text; otherwise it is the phone error naming the text |
| Fields.ParseBirthday | 1-bot-upd5.py:42-47 | `Birthday(text)`: a date when `strptime` accepts the text, otherwise the invalid-date error naming the text (which texts are accepted is stated by `ParseBirthdayIff`) |
| Fields.MatchDaySpells | 1-bot-upd5.py:45 | the `%d` field reads day n exactly for "01".."31", and for 1..9 also "n" and " n" |
| Fields.MatchMonthSpells | 1-bot-upd5.py:45 | the `%m` field reads month n exactly for "01".."12", and for 1..9 also "n" |
| Fields.MatchYearSpells | 1-bot-upd5.py:45 | the `%Y` field reads year n exactly when it is the four-digit spelling of n |
| Fields.ParseBirthdayIff | 1-bot-upd5.py:42-47 | `Birthday(text)` yields date d exactly when d is a calendar date (leap years included) and text is day.month.year in the accepted spellings; any other text raises the invalid-date error |
| Fields.ParsedSpells | 1-bot-upd5.py:43-45 | whatever is parsed is spelled as day.month.year in the accepted forms |
| Fields.SpelledParses | 1-bot-upd5.py:43-45 | every accepted spelling of a calendar date parses to that date |
| Fields.FormatParseRoundTrip | 1-bot-upd5.py:45 | formatting a date as DD.MM.YYYY and parsing it back gives the same date |
| Calendar.Ordinal | 1-bot-upd5.py:132 | `toordinal()`: 0001-01-01 is day 1, and every day of a year is numbered after all the days of the years before it and within that year's length |
| Calendar.Weekday | 1-bot-upd5.py:129 | `weekday()` is one of 0 (Monday) to 6 (Sunday) |
| Calendar.DaysBetween | 1-bot-upd5.py:132 | `(later - earlier).days` is positive exactly when `earlier < later` and zero exactly for the same date |
| Calendar.Before | 1-bot-upd5.py:126 | `<` on dates never holds between equal dates nor from a later year to an earlier one |
| Calendar.NextDay | 1-bot-upd5.py:130 | adding one day gives the calendar date whose ordinal is one more |
| Calendar.DaysBeforeNextYear | 1-bot-upd5.py:130 | a year adds 365 days to the ordinal, 366 in a leap year |
| Calendar.NextDayWeekday | 1-bot-upd5.py:129-130 | one day on moves the weekday one on, Sunday wrapping to Monday |
| Calendar.LastDateIsFriday | 1-bot-upd5.py:129-130 | 9999-12-31 is a Friday, so the weekend loop never steps past the last date |
| Calendar.BeforeIsOrdinalOrder | 1-bot-upd5.py:126 | comparing dates by (year, month, day) agrees with comparing their ordinals |
| Seqs.WithoutRemovesExactly | 1-bot-upd5.py:60-66 | removal leaves no copy of the value, keeps every other value as often as before, and keeps the order |
| Seqs.WithoutAbsent | 1-bot-upd5.py:60-66 | removing a value that is not there changes nothing |
| Seqs.WithoutIdempotent | 1-bot-upd5.py:60-66 | removing a value twice is the same as removing it once |
| Seqs.WithoutMembership | 1-bot-upd5.py:108-111 | after removal an element is present exactly when it was present and differs from the removed one |
| Seqs.WithoutDistinct | 1-bot-upd5.py:108-111 | removal keeps a list of distinct keys distinct |
| Contacts.ReplacedAt | 1-bot-upd5.py:68-72 | an edit keeps the length, every entry equal to the old value gets the new one, every other entry is unchanged |
| Contacts.EditKeepsPhonesValid | 1-bot-upd5.py:68-72 | editing to a valid phone keeps a list of valid phones valid |
| Contacts.EditRemovesOldValue | 1-bot-upd5.py:68-72 | after an edit to a different value the old value is gone, and the new one is present when the old one was |
| Contacts.Record.constructor | 1-bot-upd5.py:51-54 | a new record has the given name, no phones and no birthday |
| Contacts.Record.AddPhone | 1-bot-upd5.py:56-58 | a valid phone is appended at the end; an invalid one raises and the list is unchanged |
| Contacts.Record.RemovePhone | 1-bot-upd5.py:60-66 | the new list is the old one with every equal phone removed |
| Contacts.Record.EditPhone | 1-bot-upd5.py:68-72 | the new list is the old one with every phone equal to the old value replaced by the new value, which is not validated |
| Contacts.Record.FindPhone | 1-bot-upd5.py:74-79 | a hit is the first position holding that phone; a miss means no phone is equal and gives the not-found message |
| Contacts.Record.AddBirthday | 1-bot-upd5.py:81-86 | a record with a birthday refuses another without parsing and keeps its birthday; otherwise a parsed date is stored, and a parse error leaves it without one |
| Contacts.AddThenFindPhone | 1-bot-upd5.py:56-79 | after adding a valid phone, finding it succeeds at a position holding that phone; an invalid one leaves the list unchanged |
| Birthdays.ReplaceYear | 1-bot-upd5.py:125 | `replace(year=y)` keeps month and day, and raises exactly when y is outside 1..9999 or the month has no such day in y |
| Birthdays.NextOccurrence | 1-bot-upd5.py:125-127 | the next occurrence has the birthday's month and day, is not before today, is in today's year unless that date has passed; it fails exactly for 29 February without a leap year to land in, or for a passed birthday in year 9999 |
| Birthdays.ToWeekday | 1-bot-upd5.py:129-130 | the shifted date is a weekday, 2 days later from a Saturday, 1 from a Sunday, unchanged otherwise |
| Birthdays.Consider | 1-bot-upd5.py:123-133 | one contact: no birthday gives nothing; it fails exactly when the next occurrence fails; a greeting carries the contact's name and a weekday 1 to 7 days after today, exactly as many days after the next occurrence as the weekend shift needs (2 from a Saturday, 1 from a Sunday, 0 otherwise); it is given exactly when the shifted date is 1 to 7 days away |
| Birthdays.Upcoming | 1-bot-upd5.py:120-134 | every reported date is a weekday 1 to 7 days after today |
| Birthdays.Render | 1-bot-upd5.py:133 | a line is the contact's name, then ": ", then ten characters of date |
| Birthdays.RenderedDateReadsBack | 1-bot-upd5.py:133 | the date part of a line, written with `strftime('%d.%m.%Y')`, reads back as the greeting's date |
| Birthdays.RenderAll | 1-bot-upd5.py:133-134 | one line per greeting, in the same order, each line rendering its greeting |
| Birthdays.UpcomingMembers | 1-bot-upd5.py:122-133 | a greeting is reported exactly when some contact's pass of the loop produces it |
| Birthdays.UpcomingKeepsOrder | 1-bot-upd5.py:122 | the reported names are the contacts' names, in the book's iteration order, with some left out |
| Birthdays.UpcomingStep | 1-bot-upd5.py:133 | one more contact appends its greeting, if any, at the end of the list |
| Birthdays.UpcomingErrorPersists | 1-bot-upd5.py:125-127 | once a prefix of the contacts raises, the whole query raises the same error |
| Birthdays.UpcomingFirstError | 1-bot-upd5.py:125-127 | the first contact whose pass raises decides the query's error |
| Birthdays.UpcomingFailsWithEntry | 1-bot-upd5.py:125-127 | a single contact whose pass raises makes the whole query raise |
| Birthdays.UpcomingSucceeds | 1-bot-upd5.py:120-134 | when no contact's pass raises, the query returns its list |
| Birthdays.LeapDayBirthdayFailsQuery | 1-bot-upd5.py:125 | a 29 February birthday makes the whole query raise whenever today's year is not a leap year |
| Birthdays.QuerySucceedsWithoutLeapDays | 1-bot-upd5.py:125-127 | without 29 February birthdays and before year 9999 the query always returns a list |
| Birthdays.BirthdayTodayOnWeekdayExcluded | 1-bot-upd5.py:132 | a birthday falling on today, a weekday, is not reported |
| Birthdays.BirthdayTodayOnSaturdayReported | 1-bot-upd5.py:129-132 | a birthday falling on today, a Saturday, is reported for Monday, two days ahead |
| Birthdays.SaturdayBirthdayMovesToMonday | 1-bot-upd5.py:125-133 | with today Friday 14.06.2024, a birthday on 15.06 is greeted on Monday 17.06.2024 |
| Birthdays.MondayGreetingLine | 1-bot-upd5.py:133 | that greeting is the line "Ann: 17.06.2024" |
| Birthdays.BirthdayElevenDaysAwayExcluded | 1-bot-upd5.py:132 | with the same today, a birthday on 25.06 is 11 days away and not reported |
| Book.AddressBook.constructor | 1-bot-upd5.py:97 | a new book is empty and satisfies the book invariant |
| Book.AddressBook.Entries | 1-bot-upd5.py:122 | `self.data.values()`: one contact per key in iteration order, named by its key, with that record's name and birthday |
| Book.AddressBook.AddRecord | 1-bot-upd5.py:98-101 | the record is stored under its name, replacing an earlier one; a new name goes last in the order, a replaced one keeps its place; the invariant is kept |
| Book.AddressBook.Find | 1-bot-upd5.py:104-106 | the record stored under the name, or nothing when the name is absent |
| Book.AddressBook.Delete | 1-bot-upd5.py:108-114 | reports whether the name was present; only that key leaves the map and the order; the invariant is kept |
| Book.AddressBook.UpcomingBirthdays | 1-bot-upd5.py:116-134 | the loop returns exactly the rendered result of the query over the contacts in iteration order, or its first error |
| Book.GreetingFor | 1-bot-upd5.py:123-133 | the loop body for one record, with its inner weekend loop, computes exactly that contact's pass |
| Book.AddFindDelete | 1-bot-upd5.py:98-114 | after adding a record, finding its name returns it; deleting it reports a removal and a later find misses |

## Left out

- Saving and loading the book with `pickle` (lines 6-15): file I/O.
- The command loop `main`, `parse_input`, the `input_error` decorator, `show_all_contacts` and the command handlers (lines 136-278): input, printing and argument-count checks around the core. So `add_contact` raising `UnboundLocalError` for an existing contact is not modelled.
- `Record.__str__` and the `Field.__str__` display (lines 18-24, 88-94). Only the `DD.MM.YYYY` formatter used in the query's lines is modelled.
- `datetime.today()`: `today` is a parameter.
- `Name`: it wraps its text without any check, so a name is a plain string. The field class hierarchy is not modelled.
- Exception messages: errors are `Error` values. The phone and date messages are not modelled as text, apart from `find_phone`'s not-found message.
- Unicode digits: `str.isdigit` and the regular expression's `\d` also accept non-ASCII digits. The model accepts only '0' to '9'.
- `UserDict`'s other mapping operations on `AddressBook`: only `add_record`, `find`, `delete` and the query are modelled.
- Book.AddressBook.Delete: `delete` prints a notice and returns `None`; the model returns whether the name was present instead of printing, so the notice text is not modelled.
- Contacts.Record.FindPhone: returns the position of the first equal phone rather than the `Phone` object. The model keeps phones as strings, so a caller holding a returned `Phone` object does not see later edits through it (aliasing is not modelled).
- Fields.FormatDate: always writes four year digits. `strftime("%Y")` on some C libraries writes years below 1000 without leading zeros. The query only formats dates in today's year or the next one.
