/** The bot's commands that change the book. Each takes the words typed
    after the command and replies with a message or fails with the error
    the bot reports. The arguments are bound to names by unpacking, so a
    wrong number of them is an error before the book is looked at. */
module Commands {
  import opened Common
  import opened Seqs
  import opened Fields
  import opened Contacts

  /** `add <name> <phone> [email]`: a known name gets the phone appended
      (when it is not empty) and the email replaced (when it is not empty);
      an unknown name gets a new record. A phone that is not ten digits
      fails the command, and then the email is left as it was. */
  method AddContact(args: seq<string>, book: AddressBook) returns (res: Result<string>)
    requires book.Valid()
    modifies book, book.data.Values
    ensures book.Valid()
    ensures |args| < 2 ==> res == Err(NotEnoughValues(2, |args|, true))
    ensures |args| < 2 || res.Err? ==> book.data == old(book.data) && book.order == old(book.order)
    ensures |args| >= 2 ==> (res.Ok? <==> args[1] == "" || IsValidPhone(args[1]))
    ensures |args| >= 2 && res.Err? ==> res.error == InvalidPhone
    ensures |args| >= 2 && args[0] in old(book.data) ==>
              var r := old(book.data[args[0]]);
              var email := if |args| > 2 then args[2] else "";
              && book.data == old(book.data) && book.order == old(book.order)
              && r.phones == (if res.Ok? && args[1] != "" then old(r.phones) + [Phone(args[1])] else old(r.phones))
              && r.email == (if res.Ok? && email != "" then email else old(r.email))
              && r.birthday == old(r.birthday)
              && (res.Ok? ==> res.value == "Contact updated.")
    ensures |args| >= 2 && res.Ok? ==> book.Find(args[0]).Some?
    ensures |args| >= 2 && args[0] !in old(book.data) && res.Ok? ==>
              var r := book.data[args[0]];
              && fresh(r)
              && book.data == old(book.data)[args[0] := r]
              && book.order == old(book.order) + [args[0]]
              && r.phones == (if args[1] == "" then [] else [Phone(args[1])])
              && r.email == (if |args| > 2 then args[2] else "")
              && r.birthday == None
              && res.value == "Contact added."
    ensures forall k :: k in old(book.data) && (|args| < 2 || k != args[0]) ==> unchanged(old(book.data[k]))
  {
    if |args| < 2 {
      return Err(NotEnoughValues(2, |args|, true));
    }
    var name, phone := args[0], args[1];
    var email := if |args| > 2 then args[2] else "";
    var found := book.Find(name);
    match found {
      case None =>
        var created := Record.Create(name, phone, email);
        if created.Err? {
          return Err(created.error);
        }
        book.AddRecord(created.value);
        res := Ok("Contact added.");
      case Some(record) =>
        if phone != "" {
          var added := record.AddPhone(phone);
          if added.Err? {
            return Err(added.error);
          }
        }
        if email != "" {
          record.email := email;
        }
        res := Ok("Contact updated.");
    }
  }

  /** `change <name> <old phone> <new phone>`: the contact's first phone equal
      to the old one takes the new value, which is not checked. */
  method ChangeContact(args: seq<string>, book: AddressBook) returns (res: Result<string>)
    requires book.Valid()
    modifies book.data.Values
    ensures |args| < 3 ==> res == Err(NotEnoughValues(3, |args|, false))
    ensures |args| > 3 ==> res == Err(TooManyValues(3))
    ensures |args| == 3 && args[0] !in book.data ==> res == Err(ContactNotFound(args[0]))
    ensures |args| == 3 && args[0] in book.data ==>
              var r := book.data[args[0]];
              var at := IndexOf(old(r.phones), Phone(args[1]));
              && (res.Ok? <==> at.Some?)
              && (res.Ok? ==> res.value == "Contact updated." && r.phones == old(r.phones)[at.value := Phone(args[2])])
              && (res.Err? ==> res.error == PhoneNotFound && r.phones == old(r.phones))
              && r.email == old(r.email) && r.birthday == old(r.birthday)
    ensures forall k :: k in book.data && (|args| != 3 || k != args[0]) ==> unchanged(book.data[k])
  {
    if |args| < 3 {
      return Err(NotEnoughValues(3, |args|, false));
    } else if |args| > 3 {
      return Err(TooManyValues(3));
    }
    var name, oldPhone, newPhone := args[0], args[1], args[2];
    var found := book.Find(name);
    match found {
      case None =>
        res := Err(ContactNotFound(name));
      case Some(record) =>
        var edited := record.EditPhone(oldPhone, newPhone);
        if edited.Err? {
          return Err(edited.error);
        }
        res := Ok("Contact updated.");
    }
  }

  /** `add-birthday <name> <date>`: sets the contact's birthday when the date
      is valid. */
  method AddBirthday(args: seq<string>, book: AddressBook) returns (res: Result<string>)
    requires book.Valid()
    modifies book.data.Values
    ensures |args| < 2 ==> res == Err(NotEnoughValues(2, |args|, false))
    ensures |args| > 2 ==> res == Err(TooManyValues(2))
    ensures |args| == 2 && args[0] !in book.data ==> res == Err(ContactNotFound(args[0]))
    ensures |args| == 2 && args[0] in book.data ==>
              var r := book.data[args[0]];
              && (res.Ok? <==> ParseDate(args[1]).Some?)
              && (res.Ok? ==> res.value == "Birthday added for " + args[0] + "." && r.birthday == Some(Birthday(args[1])))
              && (res.Err? ==> res.error == InvalidDate && r.birthday == old(r.birthday))
              && r.phones == old(r.phones) && r.email == old(r.email)
    ensures forall k :: k in book.data && (|args| != 2 || k != args[0]) ==> unchanged(book.data[k])
  {
    if |args| < 2 {
      return Err(NotEnoughValues(2, |args|, false));
    } else if |args| > 2 {
      return Err(TooManyValues(2));
    }
    var name, text := args[0], args[1];
    var found := book.Find(name);
    match found {
      case None =>
        res := Err(ContactNotFound(name));
      case Some(record) =>
        var added := record.AddBirthday(text);
        if added.Err? {
          return Err(added.error);
        }
        res := Ok("Birthday added for " + name + ".");
    }
  }
}
