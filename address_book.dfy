/** `AddressBook`: a dictionary from contact name to `Record`, iterated in
    the order the names were first inserted, as a Python dict is. */
module Book {
  import opened Outcomes
  import opened Calendar
  import opened Seqs
  import opened Contacts
  import opened Birthdays

  class AddressBook {
    var records: map<string, Record>
    /** The dictionary's iteration order: each key once, oldest first. */
    var order: seq<string>

    /** Every record sits under its own name, and `order` lists the keys. */
    ghost predicate Valid()
      reads this
    {
      && (forall name :: name in records ==> records[name].name == name)
      && (forall name :: name in records <==> name in order)
      && Distinct(order)
    }

    /** An empty book. */
    constructor ()
      ensures Valid() && records == map[] && order == []
    {
      records := map[];
      order := [];
    }

    /** The contacts in iteration order, as the birthday query reads them:
        one per key, each named by its key. */
    function Entries(): (entries: seq<Entry>)
      requires Valid()
      reads this, records.Values
      ensures |entries| == |order|
      ensures forall i :: 0 <= i < |order| ==> entries[i].name == order[i]
      ensures forall i :: 0 <= i < |order| ==>
        entries[i] == Entry(records[order[i]].name, records[order[i]].birthday)
    {
      seq(|order|, i requires 0 <= i < |order| && order[i] in records reads this, records.Values =>
        Entry(records[order[i]].name, records[order[i]].birthday))
    }

    /** `add_record`: the record goes under its name, replacing any record
        of that name; a new name is iterated last, a replaced one keeps its place. */
    method AddRecord(record: Record)
      requires Valid()
      modifies this
      ensures Valid()
      ensures records == old(records)[record.name := record]
      ensures order == if record.name in old(records) then old(order) else old(order) + [record.name]
    {
      if record.name !in records {
        order := order + [record.name];
      }
      records := records[record.name := record];
    }

    /** `find`: the record stored under `name`, if any. */
    method Find(name: string) returns (r: Option<Record>)
      requires Valid()
      ensures r.Some? <==> name in records
      ensures r.Some? ==> r.value == records[name] && r.value.name == name
    {
      if name in records {
        return Some(records[name]);
      }
      return None;
    }

    /** `delete`: removes `name` and reports whether it was there; the
        other records and their order stay as they were. */
    method Delete(name: string) returns (removed: bool)
      requires Valid()
      modifies this
      ensures Valid()
      ensures removed == (name in old(records))
      ensures records == old(records) - {name}
      ensures order == Without(old(order), name)
    {
      removed := name in records;
      if removed {
        records := records - {name};
      }
      order := Without(order, name);
      forall k ensures k in records <==> k in order {
        WithoutMembership(old(order), name, k);
      }
      WithoutDistinct(old(order), name);
      if !removed {
        WithoutAbsent(old(order), name);
      }
    }

    /** `get_upcoming_birthdays`: each contact with a birthday, moved to its
        next occurrence and past a weekend, is greeted when that date is 1 to
        7 days after `today`; the first `replace` that raises ends the query. */
    method UpcomingBirthdays(today: CalendarDate) returns (r: Result<seq<string>>)
      requires Valid()
      ensures r == Rendered(Upcoming(Entries(), today))
    {
      ghost var entries := Entries();
      var lines: seq<string> := [];
      ghost var found: seq<Greeting> := [];
      var i := 0;
      while i < |order|
        invariant 0 <= i <= |order|
        invariant Upcoming(entries[..i], today) == Ok(found)
        invariant lines == RenderAll(found)
      {
        var record := records[order[i]];
        assert entries[i] == Entry(record.name, record.birthday);
        var greeting := GreetingFor(record, today);
        assert greeting == Consider(entries[i], today);
        if greeting.Err? {
          UpcomingFirstError(entries, today, i);
          return Err(greeting.error);
        }
        ghost var earlier := found;
        UpcomingStep(entries, today, i, found, greeting.value);
        ghost var extra := if greeting.value.Some? then [greeting.value.value] else [];
        assert Upcoming(entries[..i + 1], today) == Ok(found + extra);
        if greeting.value.Some? {
          lines := lines + [Render(greeting.value.value)];
          found := found + [greeting.value.value];
        }
        assert found == earlier + extra;
        i := i + 1;
      }
      assert entries[..i] == entries;
      return Ok(lines);
    }
  }

  /** The body of the query's loop for one record: put the birthday into
      today's year, or the next year once it has passed, step past a
      weekend one day at a time, and keep it when 1 to 7 days away. */
  method GreetingFor(record: Record, today: CalendarDate) returns (r: Result<Option<Greeting>>)
    ensures r == Consider(Entry(record.name, record.birthday), today)
  {
    if record.birthday.None? {
      return Ok(None);
    }
    var thisYear := ReplaceYear(record.birthday.value, today.year);
    if thisYear.Err? {
      return Err(thisYear.error);
    }
    var day := thisYear.value;
    if Before(day, today) {
      var nextYear := ReplaceYear(day, today.year + 1);
      if nextYear.Err? {
        return Err(nextYear.error);
      }
      day := nextYear.value;
    }
    ghost var occurrence := day;
    assert NextOccurrence(record.birthday.value, today) == Ok(occurrence);
    while Weekday(day) >= 5
      invariant ToWeekday(day) == ToWeekday(occurrence)
      decreases WeekendLeft(day)
    {
      LastDateIsFriday();
      NextDayWeekday(day);
      day := NextDay(day);
    }
    if 1 <= DaysBetween(today, day) <= 7 {
      return Ok(Some(Greeting(record.name, day)));
    }
    return Ok(None);
  }

  /** `add_record` followed by `find` returns the record just added, and a
      `delete` of that name then makes `find` miss. */
  method AddFindDelete(book: AddressBook, record: Record) returns (found: Option<Record>, removed: bool, after: Option<Record>)
    requires book.Valid()
    modifies book
    ensures found == Some(record) && removed && after == None
    ensures book.Valid() && book.records == old(book.records) - {record.name}
  {
    book.AddRecord(record);
    found := book.Find(record.name);
    removed := book.Delete(record.name);
    after := book.Find(record.name);
  }
}
