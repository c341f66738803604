/** `Record`: one contact, a name, an ordered list of phones that may repeat,
    and a birthday that can be set once. Its methods change it in place. */
module Contacts {
  import opened Outcomes
  import opened Calendar
  import opened Fields
  import opened Seqs

  /** `phones` with every entry equal to `before` changed to `after`. */
  function Replaced(phones: seq<string>, before: string, after: string): seq<string>
    decreases |phones|
  {
    if phones == [] then []
    else
      var last := phones[|phones| - 1];
      Replaced(phones[..|phones| - 1], before, after) + [if last == before then after else last]
  }

  /** Editing touches each entry on its own: same length, every matching
      entry holds the new value, every other entry is as it was. */
  lemma {:induction false} ReplacedAt(phones: seq<string>, before: string, after: string)
    ensures |Replaced(phones, before, after)| == |phones|
    ensures forall k :: 0 <= k < |phones| ==>
      Replaced(phones, before, after)[k] == (if phones[k] == before then after else phones[k])
    decreases |phones|
  {
    if phones != [] {
      ReplacedAt(phones[..|phones| - 1], before, after);
    }
  }

  /** Editing to a valid number keeps a list of valid numbers valid; the
      edit itself never checks the new value. */
  lemma EditKeepsPhonesValid(phones: seq<string>, before: string, after: string)
    requires forall k :: 0 <= k < |phones| ==> IsPhone(phones[k])
    requires IsPhone(after)
    ensures forall k :: 0 <= k < |Replaced(phones, before, after)| ==> IsPhone(Replaced(phones, before, after)[k])
  {
    ReplacedAt(phones, before, after);
  }

  /** After an edit the old value is gone, unless it is also the new one. */
  lemma EditRemovesOldValue(phones: seq<string>, before: string, after: string)
    requires before != after
    ensures before !in Replaced(phones, before, after)
    ensures before in phones ==> after in Replaced(phones, before, after)
  {
    ReplacedAt(phones, before, after);
  }

  /** `find_phone`: the first stored phone equal to the argument, or the
      not-found message it returns instead of raising. */
  datatype PhoneLookup = Found(position: nat) | NotFound(message: string)

  function NotFoundMessage(phone: string): string {
    "Немає номера " + phone
  }

  class Record {
    const name: string
    var phones: seq<string>
    var birthday: Option<CalendarDate>

    /** `Record(name)`: no phones and no birthday yet. */
    constructor (name: string)
      ensures this.name == name && phones == [] && birthday == None
    {
      this.name := name;
      phones := [];
      birthday := None;
    }

    /** `add_phone`: a valid phone goes at the end; an invalid one raises
        and leaves the list as it was. */
    method AddPhone(phone: string) returns (outcome: Outcome)
      modifies this`phones
      ensures outcome == (if IsPhone(phone) then Pass else Fail(InvalidPhone(phone)))
      ensures phones == (if IsPhone(phone) then old(phones) + [phone] else old(phones))
    {
      var checked := NewPhone(phone);
      if checked.Err? {
        return Fail(checked.error);
      }
      phones := phones + [checked.value];
      outcome := Pass;
    }

    /** `remove_phone`: rebuilds the list from the phones that differ from
        the argument, in their order. */
    method RemovePhone(phone: string)
      modifies this`phones
      ensures phones == Without(old(phones), phone)
    {
      var kept: seq<string> := [];
      var i := 0;
      while i < |phones|
        invariant 0 <= i <= |phones|
        invariant kept == Without(phones[..i], phone)
      {
        assert phones[..i + 1][..i] == phones[..i];
        if phones[i] != phone {
          kept := kept + [phones[i]];
        }
        i := i + 1;
      }
      assert phones[..|phones|] == phones;
      phones := kept;
    }

    /** `edit_phone`: every phone equal to `before` takes the value `after`,
        in place and without validating `after`. */
    method EditPhone(before: string, after: string)
      modifies this`phones
      ensures phones == Replaced(old(phones), before, after)
    {
      var i := 0;
      while i < |phones|
        invariant 0 <= i <= |phones| == |old(phones)|
        invariant phones[..i] == Replaced(old(phones)[..i], before, after)
        invariant phones[i..] == old(phones)[i..]
      {
        assert old(phones)[..i + 1][..i] == old(phones)[..i];
        assert phones[i] == old(phones)[i];
        if phones[i] == before {
          phones := phones[i := after];
        }
        assert phones[..i + 1] == phones[..i] + [phones[i]];
        i := i + 1;
      }
      assert old(phones)[..|phones|] == old(phones);
      assert phones[..|phones|] == phones;
    }

    /** `find_phone`: the position of the first equal phone, else the message. */
    method FindPhone(phone: string) returns (r: PhoneLookup)
      ensures r.Found? ==> r.position < |phones| && phones[r.position] == phone && phone !in phones[..r.position]
      ensures r.NotFound? ==> phone !in phones && r.message == NotFoundMessage(phone)
    {
      var i := 0;
      while i < |phones|
        invariant 0 <= i <= |phones|
        invariant phone !in phones[..i]
      {
        if phones[i] == phone {
          return Found(i);
        }
        assert phones[..i + 1] == phones[..i] + [phones[i]];
        i := i + 1;
      }
      assert phones[..i] == phones;
      return NotFound(NotFoundMessage(phone));
    }

    /** `add_birthday`: a record that has a birthday refuses a second one
        before reading the text; otherwise the parsed date is stored, or
        the parse error is raised and nothing changes. */
    method AddBirthday(text: string) returns (outcome: Outcome)
      modifies this`birthday
      ensures old(birthday).Some? ==> outcome == Fail(BirthdayAlreadySet) && birthday == old(birthday)
      ensures old(birthday).None? ==>
        match ParseBirthday(text)
        case Ok(d) => outcome == Pass && birthday == Some(d)
        case Err(e) => outcome == Fail(e) && birthday == None
    {
      if birthday.Some? {
        return Fail(BirthdayAlreadySet);
      }
      var parsed := ParseBirthday(text);
      if parsed.Err? {
        return Fail(parsed.error);
      }
      birthday := Some(parsed.value);
      outcome := Pass;
    }
  }

  /** `add_phone` followed by `find_phone` with the same text finds a phone
      with that text whenever the text was a valid phone. */
  method AddThenFindPhone(record: Record, phone: string) returns (lookup: PhoneLookup)
    modifies record
    ensures IsPhone(phone) ==> lookup.Found? && lookup.position < |record.phones| && record.phones[lookup.position] == phone
    ensures !IsPhone(phone) ==> record.phones == old(record.phones)
  {
    var added := record.AddPhone(phone);
    lookup := record.FindPhone(phone);
    assert IsPhone(phone) ==> record.phones[|record.phones| - 1] == phone;
  }
}
