/** The contact book's objects. A `Record` is one contact whose phone list,
    email and birthday are updated in place; an `AddressBook` maps names to
    records and remembers the order in which names were first inserted,
    which is the order its report follows. */
module Contacts {
  import opened Common
  import opened Seqs
  import opened Calendar
  import opened Fields
  import opened Schedule

  class Record {
    const name: string
    var phones: seq<Phone>
    var email: string
    var birthday: Option<Birthday>

    /** A record with no phones and no birthday. */
    constructor (name: string, email: string)
      ensures this.name == name && phones == [] && this.email == email && birthday == None
    {
      this.name := name;
      phones := [];
      this.email := email;
      birthday := None;
    }

    /** `Record(name, phone, email)`: an empty phone adds no phone; a phone
        that is not ten digits makes the construction fail. */
    static method Create(name: string, phone: string, email: string) returns (res: Result<Record>)
      ensures res.Ok? <==> phone == "" || IsValidPhone(phone)
      ensures res.Err? ==> res.error == InvalidPhone
      ensures res.Ok? ==> && fresh(res.value)
                          && res.value.name == name
                          && res.value.phones == (if phone == "" then [] else [Phone(phone)])
                          && res.value.email == email
                          && res.value.birthday == None
    {
      var r := new Record(name, "");
      if phone != "" {
        var added := r.AddPhone(phone);
        if added.Err? {
          return Err(added.error);
        }
      }
      r.email := email;
      res := Ok(r);
    }

    /** `add_phone`: appends the phone when it is ten digits. */
    method AddPhone(phone: string) returns (res: Result<()>)
      modifies this
      ensures res.Ok? <==> IsValidPhone(phone)
      ensures res.Err? ==> res.error == InvalidPhone
      ensures phones == if res.Ok? then old(phones) + [Phone(phone)] else old(phones)
      ensures email == old(email) && birthday == old(birthday)
    {
      match NewPhone(phone)
      case Err(e) =>
        res := Err(e);
      case Ok(p) =>
        phones := phones + [p];
        res := Ok(());
    }

    /** `remove_phone`: keeps, in order, every phone whose value is not `phone`. */
    method RemovePhone(phone: string)
      modifies this
      ensures phones == Without(old(phones), Phone(phone))
      ensures email == old(email) && birthday == old(birthday)
    {
      var kept: seq<Phone> := [];
      for i := 0 to |phones|
        invariant kept == Without(phones[..i], Phone(phone))
      {
        assert phones[..i + 1] == phones[..i] + [phones[i]];
        if phones[i].value != phone {
          kept := kept + [phones[i]];
        }
      }
      assert phones[..|phones|] == phones;
      phones := kept;
    }

    /** `edit_phone`: the first phone whose value is `oldPhone` takes the value
        `newPhone`, which is NOT checked against the phone rule; no match is
        an error. */
    method EditPhone(oldPhone: string, newPhone: string) returns (res: Result<()>)
      modifies this
      ensures res.Ok? <==> IndexOf(old(phones), Phone(oldPhone)).Some?
      ensures res.Ok? ==> phones == old(phones)[IndexOf(old(phones), Phone(oldPhone)).value := Phone(newPhone)]
      ensures res.Err? ==> res.error == PhoneNotFound && phones == old(phones)
      ensures email == old(email) && birthday == old(birthday)
    {
      var found := false;
      var i := 0;
      while i < |phones|
        invariant 0 <= i <= |phones|
        invariant phones == old(phones)
        invariant forall k :: 0 <= k < i ==> phones[k] != Phone(oldPhone)
      {
        if phones[i].value == oldPhone {
          phones := phones[i := Phone(newPhone)];
          found := true;
          break;
        }
        i := i + 1;
      }
      if found {
        res := Ok(());
      } else {
        res := Err(PhoneNotFound);
      }
    }

    /** `find_phone`: the first phone whose value is `phone`, if any. */
    function FindPhone(phone: string): (r: Option<Phone>)
      reads this
      ensures r.Some? <==> exists k :: 0 <= k < |phones| && phones[k].value == phone
      ensures r.Some? ==> r.value.value == phone
    {
      match IndexOf(phones, Phone(phone))
      case None => None
      case Some(k) => Some(phones[k])
    }

    /** `add_birthday`: replaces the birthday when the text is a date. */
    method AddBirthday(text: string) returns (res: Result<()>)
      modifies this
      ensures res.Ok? <==> ParseDate(text).Some?
      ensures res.Err? ==> res.error == InvalidDate
      ensures birthday == if res.Ok? then Some(Birthday(text)) else old(birthday)
      ensures phones == old(phones) && email == old(email)
    {
      match NewBirthday(text)
      case Err(e) =>
        res := Err(e);
      case Ok(b) =>
        ParseDateExact(text);
        birthday := Some(b);
        res := Ok(());
    }

    /** `str(record)`: "name: phones joined by '; '", then ", email: ..." when
        the email is not empty and ", birthday: ..." when there is one. */
    function Render(): (r: string)
      reads this
      ensures |r| >= |name| + 2 && r[..|name| + 2] == name + ": "
      ensures birthday.Some? ==> |r| >= |birthday.value.value| + 12
                                 && r[|r| - |birthday.value.value| - 12..] == ", birthday: " + birthday.value.value
      ensures birthday.None? && email != "" ==> |r| >= |email| + 9 && r[|r| - |email| - 9..] == ", email: " + email
    {
      var phoneList := Join(seq(|phones|, k requires 0 <= k < |phones| reads this => phones[k].value), "; ");
      var emailInfo := if email != "" then ", email: " + email else "";
      var birthdayInfo := if birthday.Some? then ", birthday: " + birthday.value.value else "";
      name + ": " + phoneList + emailInfo + birthdayInfo
    }
  }

  class AddressBook {
    var data: map<string, Record>
    /** The names in the order they were first inserted (Python's dict order). */
    var order: seq<string>

    /** Every record is filed under its own name, and `order` lists each name
        of the book exactly once. */
    ghost predicate Valid()
      reads this
    {
      Indexed(data, order)
    }

    constructor ()
      ensures Valid() && data == map[] && order == []
    {
      data := map[];
      order := [];
    }

    /** `add_record`: files `r` under its name, replacing any record with that
        name; a new name goes to the end of the order, a known one keeps its place. */
    method AddRecord(r: Record)
      requires Valid()
      modifies this
      ensures Valid()
      ensures data == old(data)[r.name := r]
      ensures order == if r.name in old(data) then old(order) else old(order) + [r.name]
      ensures Find(r.name) == Some(r)
    {
      if r.name !in data {
        order := order + [r.name];
      }
      data := data[r.name := r];
    }

    /** `find`: the record filed under `name`, if any. */
    function Find(name: string): (r: Option<Record>)
      requires Valid()
      reads this
      ensures r.Some? <==> name in data
      ensures r.Some? ==> r.value.name == name && r.value in data.Values
    {
      if name in data then Some(data[name]) else None
    }

    /** `delete`: removes the record filed under `name`; nothing happens when
        there is none, so deleting twice is deleting once. */
    method Delete(name: string)
      requires Valid()
      modifies this
      ensures Valid()
      ensures data == old(data) - {name} && Find(name) == None
      ensures order == Without(old(order), name)
      ensures name !in old(data) ==> data == old(data) && order == old(order)
    {
      if name !in order {
        WithoutAbsent(order, name);
      }
      IndexedDelete(data, order, name);
      data := data - {name};
      order := Without(order, name);
    }

    /** Name and birthday of every record, in the book's order. */
    function Contacts(): (cs: seq<(string, Option<Birthday>)>)
      requires Valid()
      reads this, data.Values
      ensures |cs| == |order|
      ensures forall i :: 0 <= i < |order| ==> cs[i] == (data[order[i]].name, data[order[i]].birthday)
    {
      ContactsFrom(0)
    }

    function ContactsFrom(start: nat): (cs: seq<(string, Option<Birthday>)>)
      requires Valid() && start <= |order|
      reads this, data.Values
      ensures |cs| == |order| - start
      ensures forall i :: start <= i < |order| ==> cs[i - start] == (data[order[i]].name, data[order[i]].birthday)
      decreases |order| - start
    {
      if start == |order| then []
      else [(data[order[start]].name, data[order[start]].birthday)] + ContactsFrom(start + 1)
    }

    /** `get_upcoming_birthdays`, with today's date passed in: the report for
        the book's records in the book's order, or the first error. Nothing
        in the book changes. */
    method GetUpcomingBirthdays(today: Date) returns (res: Result<seq<Entry>>)
      requires Valid() && ValidDate(today)
      ensures res == Upcoming(Contacts(), today)
    {
      var cs := Contacts();
      ghost var lines := Lines(cs, today);
      var upcoming: seq<Entry> := [];
      CollectEnds(upcoming, lines);
      for i := 0 to |order|
        invariant Collect(lines) == Prepend(upcoming, Collect(lines[i..]))
      {
        var record := data[order[i]];
        var entry := EntryFor(record.name, record.birthday, today);
        LineAt(cs, today, i);
        assert lines[i] == entry;
        CollectFrom(upcoming, lines, i);
        if entry.Err? {
          return Err(entry.error);
        }
        if entry.value.Some? {
          upcoming := upcoming + [entry.value.value];
        }
      }
      CollectEnds(upcoming, lines);
      res := Ok(upcoming);
    }
  }

  /** The names of `order` are exactly the keys of `data`, each once, and
      every record is filed under its own name. */
  ghost predicate Indexed(data: map<string, Record>, order: seq<string>) {
    && (forall k :: k in data ==> data[k].name == k)
    && (forall k :: k in data <==> k in order)
    && Distinct(order)
  }

  /** Removing a name from both the map and the order keeps them in step. */
  lemma IndexedDelete(data: map<string, Record>, order: seq<string>, name: string)
    requires Indexed(data, order)
    ensures Indexed(data - {name}, Without(order, name))
  {
    forall k ensures k in data - {name} <==> k in Without(order, name) {
      WithoutMembers(order, name, k);
    }
    WithoutDistinct(order, name);
  }
}
